/** The routes one peer announced: slots, reference counts, and the buffers behind them. */
module AdjRibIn {
  import opened Basics
  import opened Pools
  import opened Allocator

  const ROUTE_SIZE: nat := 40

  /** A call of the Loc-RIB: the address, whether it is the last of its message, the route, and announce or withdraw. */
  datatype Call = Call(index: nat, eob: bool, route: nat, update: bool)

  /** The slots with the route each one holds, the count in each route, the routes freed so far, and the calls made. */
  datatype Rib = Rib(slots: seq<nat>, useCount: map<nat, uint16>, freed: seq<nat>, calls: seq<Call>)

  /** A peer's books and the blocks it uses. */
  datatype Side = Side(rib: Rib, mine: set<nat>)

  function NewSide(size: nat): Side {
    Side(Rib(seq(size, _ => NULL), map[], [], []), {})
  }

  function Holders(slots: seq<nat>, p: nat): nat {
    if |slots| == 0 then 0
    else Holders(slots[..|slots| - 1], p) + if slots[|slots| - 1] == p then 1 else 0
  }

  /** Every slot is empty or holds a route in use, and each such route counts the slots that hold it. */
  ghost predicate Counted(r: Rib, mine: set<nat>) {
    && NULL !in mine
    && (forall s: nat | s < |r.slots| :: r.slots[s] == NULL || r.slots[s] in mine)
    && (forall p <- mine :: CountOf(r, p) == Holders(r.slots, p))
  }

  // 16-bit counting.

  function Less(n: uint16): (m: uint16)
    ensures m == 0 <==> n == 1
  {
    (n as int - 1) % 0x1_0000
  }

  function More(n: uint16): uint16 {
    (n as int + 1) % 0x1_0000
  }

  function CountOf(r: Rib, p: nat): uint16 {
    if p in r.useCount then r.useCount[p] else 0
  }

  /** One reference less; the route is freed when that was the last one. */
  function Drop(r: Rib, p: nat): Rib
  {
    if p == NULL then r
    else
      var n := Less(CountOf(r, p));
      r.(useCount := r.useCount[p := n], freed := if n == 0 then r.freed + [p] else r.freed)
  }

  function Take(r: Rib, p: nat): Rib {
    r.(useCount := r.useCount[p := More(CountOf(r, p))])
  }

  /** The new route is counted and the Loc-RIB called; without one it is called only if there was a route before. */
  function Enter(r: Rib, index: nat, eob: bool, route: nat, was: nat): Rib {
    if route != NULL then var t := Take(r, route); t.(calls := t.calls + [Call(index, eob, route, true)])
    else if was != NULL then r.(calls := r.calls + [Call(index, eob, route, false)])
    else r
  }

  /** A route (or none) is put into a slot. */
  function Update(r: Rib, index: nat, eob: bool, route: nat): Rib
    requires index < |r.slots|
  {
    var was := r.slots[index];
    Enter(Drop(r.(slots := r.slots[index := route]), was), index, eob, route, was)
  }

  // ---------------------------------------------------------------- one slot

  lemma {:induction false} HoldersUpdate(slots: seq<nat>, s: nat, q: nat, p: nat)
    requires s < |slots|
    ensures Holders(slots[s := q], p)
         == Holders(slots, p) - (if slots[s] == p then 1 else 0) + (if q == p then 1 else 0)
  {
    var n := |slots| - 1;
    if s < n {
      HoldersUpdate(slots[..n], s, q, p);
      assert slots[s := q][..n] == slots[..n][s := q];
    } else {
      assert slots[s := q][..n] == slots[..n];
    }
  }

  lemma {:induction false} HeldSomewhere(slots: seq<nat>, p: nat)
    ensures Holders(slots, p) == 0 <==> p !in slots
    ensures Holders(slots, p) <= |slots|
  {
    if |slots| > 0 {
      var n := |slots| - 1;
      HeldSomewhere(slots[..n], p);
      assert slots == slots[..n] + [slots[n]];
    }
  }

  /** The routes in use after a slot lost what it held. */
  ghost function Left(r: Rib, mine: set<nat>, index: nat, route: nat): set<nat>
    requires index < |r.slots|
  {
    var was := r.slots[index];
    if was != NULL && was != route && CountOf(r, was) == 1 then mine - {was} else mine
  }

  /** May the route go into this slot without being freed on the way? */
  ghost predicate MayPut(r: Rib, mine: set<nat>, index: nat, route: nat) {
    && Counted(r, mine) && index < |r.slots|
    && (route != NULL ==>
          && route in mine && CountOf(r, route) < 0xffff
          && (r.slots[index] == route ==> CountOf(r, route) != 1))
  }

  lemma DropCount(r: Rib, was: nat, p: nat)
    requires p != NULL && (was == p ==> CountOf(r, p) > 0)
    ensures CountOf(Drop(r, was), p) == CountOf(r, p) - if was == p then 1 else 0
  {
  }

  lemma UpdateCount(r: Rib, index: nat, eob: bool, route: nat, p: nat)
    requires index < |r.slots| && p != NULL && CountOf(r, p) < 0x1_0000 - (if route == p then 1 else 0)
    requires r.slots[index] == p ==> CountOf(r, p) > 0
    ensures CountOf(Update(r, index, eob, route), p)
         == CountOf(r, p) - (if r.slots[index] == p then 1 else 0) + (if route == p then 1 else 0)
  {
    DropCount(r.(slots := r.slots[index := route]), r.slots[index], p);
  }

  lemma CountAfter(r: Rib, mine: set<nat>, index: nat, eob: bool, route: nat, p: nat)
    requires MayPut(r, mine, index, route) && p in mine
    ensures var next := Update(r, index, eob, route);
            CountOf(next, p) == Holders(r.slots[index := route], p)
  {
    HoldersUpdate(r.slots, index, route, p);
    HeldSomewhere(r.slots, p);
    UpdateCount(r, index, eob, route, p);
  }

  lemma FreedAfter(r: Rib, mine: set<nat>, index: nat, eob: bool, route: nat)
    requires MayPut(r, mine, index, route)
    ensures Update(r, index, eob, route).freed
         == r.freed + (if Left(r, mine, index, route) == mine then [] else [r.slots[index]])
  {
    HeldSomewhere(r.slots, r.slots[index]);
  }

  lemma SlotsAfter(r: Rib, mine: set<nat>, index: nat, route: nat, s: nat)
    requires MayPut(r, mine, index, route) && s < |r.slots|
    ensures var q := r.slots[index := route][s]; q == NULL || q in Left(r, mine, index, route)
  {
    var was := r.slots[index];
    HoldersUpdate(r.slots, index, route, was);
    HeldSomewhere(r.slots[index := route], was);
  }

  /**
   Putting a route into a slot keeps the counts, frees exactly the route whose last slot
   this was, and never wraps a count, unless the slot is the only one that holds the
   same route already.
   */
  lemma UpdateKeeps(r: Rib, mine: set<nat>, index: nat, eob: bool, route: nat)
    requires MayPut(r, mine, index, route)
    ensures var next, left := Update(r, index, eob, route), Left(r, mine, index, route);
            && Counted(next, left)
            && next.freed == r.freed + (if left == mine then [] else [r.slots[index]])
            && (route != NULL ==>
                  route in left && CountOf(next, route) == CountOf(r, route)
                      + (if r.slots[index] == route then 0 else 1))
  {
    var next := Update(r, index, eob, route);
    FreedAfter(r, mine, index, eob, route);
    forall p <- mine ensures CountOf(next, p) == Holders(next.slots, p) {
      CountAfter(r, mine, index, eob, route, p);
    }
    forall s: nat | s < |next.slots| ensures next.slots[s] == NULL || next.slots[s] in Left(r, mine, index, route) {
      SlotsAfter(r, mine, index, route, s);
    }
    if route != NULL { HoldersUpdate(r.slots, index, route, route); }
  }

  // ---------------------------------------------------------------- one list of prefixes

  /** What the prefix table gave for the prefixes of one list; None for a prefix that is too long. */
  type Looked = seq<Option<nat>>

  predicate Fits(list: Looked, size: nat) {
    forall k | 0 <= k < |list| :: list[k].Some? ==> list[k].value < size
  }

  /** The slots asked for by the first n prefixes. */
  function Accepted(list: Looked, n: nat): (a: seq<nat>)
    requires n <= |list|
    ensures |a| <= n
  {
    if n == 0 then []
    else Accepted(list, n - 1) + if list[n - 1].Some? then [list[n - 1].value] else []
  }

  /** The first n prefixes of a list, put to a route or withdrawn; the last of the list is marked. */
  function Feed(r: Rib, list: Looked, n: nat, route: nat): (next: Rib)
    requires n <= |list| && Fits(list, |r.slots|)
    ensures |next.slots| == |r.slots|
  {
    if n == 0 then r
    else
      var before := Feed(r, list, n - 1, route);
      match list[n - 1]
      case None => before
      case Some(i) => Update(before, i, n == |list|, route)
  }

  /** The routes still in use after the first n prefixes. */
  ghost function MineAfter(r: Rib, mine: set<nat>, list: Looked, n: nat, route: nat): set<nat>
    requires n <= |list| && Fits(list, |r.slots|)
  {
    if n == 0 then mine
    else
      var left := MineAfter(r, mine, list, n - 1, route);
      match list[n - 1]
      case None => left
      case Some(i) => Left(Feed(r, list, n - 1, route), left, i, route)
  }

  /** A route in use is held by a slot, or leaked, and not both. */
  lemma UsedAreHeldOrLeaked(r: Rib, mine: set<nat>)
    requires Counted(r, mine)
    ensures mine == (set p | p in r.slots && p != NULL) + Leaked(r, mine)
    ensures forall p <- Leaked(r, mine) :: p !in r.slots
  {
    forall p <- mine ensures p in r.slots <==> CountOf(r, p) != 0 {
      HeldSomewhere(r.slots, p);
    }
  }

  /** Are the first two slots asked for the same one? */
  predicate EarlyRepeat(a: seq<nat>) {
    |a| >= 2 && a[0] == a[1]
  }

  /** Routes in use that no slot holds: nothing will ever free them. */
  ghost function Leaked(r: Rib, mine: set<nat>): set<nat> {
    set p | p in mine && CountOf(r, p) == 0
  }

  lemma LeakedAfter(r: Rib, mine: set<nat>, index: nat, eob: bool, route: nat)
    requires MayPut(r, mine, index, route)
    ensures Leaked(Update(r, index, eob, route), Left(r, mine, index, route)) == Leaked(r, mine) - {route}
  {
    var next := Update(r, index, eob, route);
    UpdateKeeps(r, mine, index, eob, route);
    HeldSomewhere(r.slots, r.slots[index]);
    forall p <- mine ensures CountOf(next, p) == Holders(r.slots[index := route], p) {
      CountAfter(r, mine, index, eob, route, p);
      HoldersUpdate(r.slots, index, route, p);
    }
  }

  /** Afterwards a slot holds the route if the list asked for it, and otherwise what it held. */
  lemma {:induction false} FeedSlots(r: Rib, list: Looked, n: nat, route: nat, s: nat)
    requires n <= |list| && Fits(list, |r.slots|) && s < |r.slots|
    ensures Feed(r, list, n, route).slots[s] == if s in Accepted(list, n) then route else r.slots[s]
  {
    if n > 0 { FeedSlots(r, list, n - 1, route, s); }
  }

  /** What is known after the first n prefixes: the routes in use, their counts, those freed and those leaked. */
  ghost predicate Sound(r: Rib, mine: set<nat>, list: Looked, n: nat, route: nat)
    requires n <= |list| && Fits(list, |r.slots|)
  {
    var next, left := Feed(r, list, n, route), MineAfter(r, mine, list, n, route);
    && Counted(next, left)
    && left <= mine
    && (forall p <- r.freed :: p in next.freed)
    && (forall p <- next.freed :: p in r.freed || p in mine - left)
    && (forall p <- mine - left :: p in next.freed)
    && Leaked(next, left) == Leaked(r, mine) - (if Accepted(list, n) == [] then {} else {route})
  }

  lemma SoundStep(r: Rib, mine: set<nat>, list: Looked, n: nat, route: nat)
    requires 0 < n <= |list| && Fits(list, |r.slots|) && NULL !in mine
    requires Sound(r, mine, list, n - 1, route)
    requires list[n - 1].Some? ==>
               MayPut(Feed(r, list, n - 1, route), MineAfter(r, mine, list, n - 1, route), list[n - 1].value, route)
    ensures Sound(r, mine, list, n, route)
  {
    if list[n - 1].Some? {
      var before, left := Feed(r, list, n - 1, route), MineAfter(r, mine, list, n - 1, route);
      UpdateKeeps(before, left, list[n - 1].value, n == |list|, route);
      LeakedAfter(before, left, list[n - 1].value, n == |list|, route);
    }
  }

  /** Withdrawing keeps the counts whatever the list asks for. */
  lemma {:induction false} WithdrawSound(r: Rib, mine: set<nat>, list: Looked, n: nat)
    requires n <= |list| && Fits(list, |r.slots|) && Counted(r, mine)
    ensures Sound(r, mine, list, n, NULL)
  {
    if n > 0 {
      WithdrawSound(r, mine, list, n - 1);
      SoundStep(r, mine, list, n, NULL);
    }
  }

  /** How often a fresh route is counted, by the number of slots asked for so far. */
  predicate CountFits(a: seq<nat>, count: nat, n: nat) {
    (|a| >= 2 ==> count >= 2) && (|a| == 1 ==> count == 1) && (|a| == 0 ==> count == 0) && count <= n
  }

  lemma MayPutFresh(r: Rib, mine: set<nat>, list: Looked, n: nat, route: nat)
    requires n < |list| < 0x1_0000 && Fits(list, |r.slots|) && list[n].Some?
    requires route != NULL && CountOf(r, route) == Holders(r.slots, route) == 0
    requires !EarlyRepeat(Accepted(list, n + 1))
    requires Sound(r, mine, list, n, route) && route in MineAfter(r, mine, list, n, route)
    requires CountFits(Accepted(list, n), CountOf(Feed(r, list, n, route), route), n)
    ensures MayPut(Feed(r, list, n, route), MineAfter(r, mine, list, n, route), list[n].value, route)
  {
    FeedSlots(r, list, n, route, list[n].value);
    HeldSomewhere(r.slots, route);
  }

  /** What is known of a fresh route after the first n prefixes. */
  ghost predicate FreshSound(r: Rib, mine: set<nat>, list: Looked, n: nat, route: nat)
    requires n <= |list| && Fits(list, |r.slots|)
  {
    && Sound(r, mine, list, n, route) && route in MineAfter(r, mine, list, n, route)
    && CountFits(Accepted(list, n), CountOf(Feed(r, list, n, route), route), n)
  }

  lemma CountFitsOneMore(a: seq<nat>, i: nat, count: nat, n: nat)
    requires CountFits(a, count, n) && !EarlyRepeat(a + [i])
    ensures CountFits(a + [i], count + if i in a then 0 else 1, n + 1)
  {
  }

  lemma FreshCount(r: Rib, mine: set<nat>, list: Looked, n: nat, route: nat)
    requires 0 < n <= |list| && Fits(list, |r.slots|) && list[n - 1].Some? && route != NULL && route !in r.slots
    requires CountFits(Accepted(list, n - 1), CountOf(Feed(r, list, n - 1, route), route), n - 1)
    requires MayPut(Feed(r, list, n - 1, route), MineAfter(r, mine, list, n - 1, route), list[n - 1].value, route)
    requires !EarlyRepeat(Accepted(list, n))
    ensures CountFits(Accepted(list, n), CountOf(Feed(r, list, n, route), route), n)
    ensures route in MineAfter(r, mine, list, n, route)
  {
    var before, i, a := Feed(r, list, n - 1, route), list[n - 1].value, Accepted(list, n - 1);
    assert before.slots[i] == route <==> i in a by { FeedSlots(r, list, n - 1, route, i); }
    UpdateKeeps(before, MineAfter(r, mine, list, n - 1, route), i, n == |list|, route);
    assert Accepted(list, n) == a + [i];
    CountFitsOneMore(a, i, CountOf(before, route), n - 1);
  }

  lemma AnnounceOne(r: Rib, mine: set<nat>, list: Looked, n: nat, route: nat)
    requires 0 < n <= |list| < 0x1_0000 && Fits(list, |r.slots|) && NULL !in mine && list[n - 1].Some?
    requires CountOf(r, route) == Holders(r.slots, route) == 0 && FreshSound(r, mine, list, n - 1, route)
    requires route != NULL && !EarlyRepeat(Accepted(list, n))
    ensures FreshSound(r, mine, list, n, route)
  {
    MayPutFresh(r, mine, list, n - 1, route);
    HeldSomewhere(r.slots, route);
    FreshCount(r, mine, list, n, route);
    SoundStep(r, mine, list, n, route);
  }

  /** A fresh route is counted once for every different slot, as long as the first two are different. */
  lemma {:induction false} AnnounceSound(r: Rib, mine: set<nat>, list: Looked, n: nat, route: nat)
    requires n <= |list| < 0x1_0000 && Fits(list, |r.slots|) && Counted(r, mine)
    requires route in mine && CountOf(r, route) == 0
    requires !EarlyRepeat(Accepted(list, n))
    ensures Sound(r, mine, list, n, route) && route in MineAfter(r, mine, list, n, route)
    ensures CountFits(Accepted(list, n), CountOf(Feed(r, list, n, route), route), n)
  {
    if n > 0 {
      AnnounceSound(r, mine, list, n - 1, route);
      if list[n - 1].Some? {
        AnnounceOne(r, mine, list, n, route);
      } else {
        SoundStep(r, mine, list, n, route);
      }
    }
  }

  lemma {:induction false} RepeatFrees(r: Rib, mine: set<nat>, list: Looked, n: nat, route: nat)
    requires n <= |list| < 0x1_0000 && Fits(list, |r.slots|) && Counted(r, mine)
    requires route in mine && CountOf(r, route) == 0
    requires EarlyRepeat(Accepted(list, n))
    ensures route in Feed(r, list, n, route).freed
  {
    if EarlyRepeat(Accepted(list, n - 1)) {
      RepeatFrees(r, mine, list, n - 1, route);
    } else {
      AnnounceSound(r, mine, list, n - 1, route);
      FeedSlots(r, list, n - 1, route, list[n - 1].value);
    }
  }

  /**
   A route is freed by the list that announces it, while the slots asked for hold it,
   exactly when the first two slots asked for are the same.
   */
  lemma FreedByOwnListExactly(r: Rib, mine: set<nat>, list: Looked, route: nat)
    requires |list| < 0x1_0000 && Fits(list, |r.slots|) && Counted(r, mine) && r.freed == []
    requires route in mine && CountOf(r, route) == 0
    ensures var next, a := Feed(r, list, |list|, route), Accepted(list, |list|);
            && (route in next.freed <==> EarlyRepeat(a))
            && forall s <- a :: s < |next.slots| ==> next.slots[s] == route
  {
    var next, a := Feed(r, list, |list|, route), Accepted(list, |list|);
    if EarlyRepeat(a) {
      RepeatFrees(r, mine, list, |list|, route);
    } else {
      AnnounceSound(r, mine, list, |list|, route);
    }
    forall s <- a | s < |next.slots| ensures next.slots[s] == route {
      FeedSlots(r, list, |list|, route, s);
    }
  }

  /**
   An announced list calls the Loc-RIB once for every accepted prefix, in order; the
   last call is marked exactly when the last prefix of the list is accepted.
   */
  lemma {:induction false} AnnounceCalls(r: Rib, list: Looked, n: nat, route: nat)
    requires n <= |list| && Fits(list, |r.slots|) && route != NULL
    ensures var a, calls := Accepted(list, n), Feed(r, list, n, route).calls;
            && |calls| == |r.calls| + |a| && calls[..|r.calls|] == r.calls
            && forall i: nat | i < |a| ::
                 calls[|r.calls| + i] == Call(a[i], i == |a| - 1 && n == |list| && list[n - 1].Some?, route, true)
  {
    if n > 0 { AnnounceCalls(r, list, n - 1, route); }
  }

  /** The slots that a withdrawn list asks for and finds a route in. */
  ghost function Emptied(slots: seq<nat>, a: seq<nat>): set<nat> {
    set s: nat | s in a && s < |slots| && slots[s] != NULL
  }

  /** One more slot is emptied exactly if it was in use and has not been asked for before. */
  lemma EmptiedSnoc(slots: seq<nat>, a: seq<nat>, i: nat)
    requires i < |slots|
    ensures |Emptied(slots, a + [i])| == |Emptied(slots, a)| + if i in a || slots[i] == NULL then 0 else 1
  {
    if i in a || slots[i] == NULL {
      assert Emptied(slots, a + [i]) == Emptied(slots, a);
    } else {
      assert Emptied(slots, a + [i]) == Emptied(slots, a) + {i};
    }
  }

  lemma WithdrawOneCall(r: Rib, list: Looked, n: nat)
    requires 0 < n <= |list| && Fits(list, |r.slots|) && list[n - 1].Some?
    ensures var i := list[n - 1].value;
            |Feed(r, list, n, NULL).calls| == |Feed(r, list, n - 1, NULL).calls|
                + if i in Accepted(list, n - 1) || r.slots[i] == NULL then 0 else 1
  {
    FeedSlots(r, list, n - 1, NULL, list[n - 1].value);
  }

  /** A withdrawn list calls the Loc-RIB once for every slot that it empties, however often it asks for it. */
  lemma {:induction false} WithdrawCalls(r: Rib, list: Looked, n: nat)
    requires n <= |list| && Fits(list, |r.slots|)
    ensures |Feed(r, list, n, NULL).calls| == |r.calls| + |Emptied(r.slots, Accepted(list, n))|
  {
    if n == 0 {
      assert Emptied(r.slots, []) == {};
    } else {
      WithdrawCalls(r, list, n - 1);
      if list[n - 1].Some? {
        WithdrawOneCall(r, list, n);
        EmptiedSnoc(r.slots, Accepted(list, n - 1), list[n - 1].value);
      } else {
        assert Accepted(list, n) == Accepted(list, n - 1);
      }
    }
  }

  // ---------------------------------------------------------------- one message

  /** A message that announces with attributes starts with a fresh route of count 0; else there is none. */
  function Start(r: Rib, route: nat): Rib {
    r.(freed := [], useCount := if route == NULL then r.useCount else r.useCount[route := 0])
  }

  /** The announced prefixes come first, then the withdrawn ones. */
  function Message(r: Rib, route: nat, nlri: Looked, withdrawn: Looked): Rib
    requires Fits(nlri, |r.slots|) && Fits(withdrawn, |r.slots|)
  {
    Feed(Feed(Start(r, route), nlri, |nlri|, route), withdrawn, |withdrawn|, NULL)
  }

  ghost function MineWith(mine: set<nat>, route: nat): set<nat> {
    if route == NULL then mine else mine + {route}
  }

  ghost function MessageMine(r: Rib, mine: set<nat>, route: nat, nlri: Looked, withdrawn: Looked): set<nat>
    requires Fits(nlri, |r.slots|) && Fits(withdrawn, |r.slots|)
  {
    var start := Start(r, route);
    MineAfter(Feed(start, nlri, |nlri|, route), MineAfter(start, MineWith(mine, route), nlri, |nlri|, route),
              withdrawn, |withdrawn|, NULL)
  }

  lemma StartCounted(r: Rib, mine: set<nat>, route: nat)
    requires Counted(r, mine) && route !in mine
    ensures Counted(Start(r, route), MineWith(mine, route))
    ensures Leaked(Start(r, route), MineWith(mine, route)) == Leaked(r, mine) + (if route == NULL then {} else {route})
  {
    HeldSomewhere(r.slots, route);
  }

  lemma NlriSound(r: Rib, mine: set<nat>, route: nat, nlri: Looked)
    requires Counted(r, mine) && route !in mine && |nlri| < 0x1_0000 && Fits(nlri, |r.slots|)
    requires route != NULL ==> !EarlyRepeat(Accepted(nlri, |nlri|))
    ensures Sound(Start(r, route), MineWith(mine, route), nlri, |nlri|, route)
  {
    StartCounted(r, mine, route);
    if route == NULL {
      WithdrawSound(Start(r, route), MineWith(mine, route), nlri, |nlri|);
    } else {
      AnnounceSound(Start(r, route), MineWith(mine, route), nlri, |nlri|, route);
    }
  }

  lemma FreedInTurn(freed: seq<nat>, freed': seq<nat>, all: set<nat>, left: set<nat>, left': set<nat>)
    requires left' <= left <= all
    requires (forall p <- freed :: p in all - left) && (forall p <- all - left :: p in freed)
    requires forall p <- freed :: p in freed'
    requires (forall p <- freed' :: p in freed || p in left - left') && (forall p <- left - left' :: p in freed')
    ensures (set p | p in freed') == all - left'
  {
  }

  lemma NotLeaked(r: Rib, mine: set<nat>, route: nat)
    requires route !in mine
    ensures route !in Leaked(r, mine)
  {
  }

  /**
   What a message leaves behind. Unless it asks for the same slot with its first two
   prefixes, every route in use still counts exactly the slots that hold it; the routes
   freed are exactly those no longer in use; and a route in use that no slot holds can
   only be one that was so before, or the new one when no prefix was accepted.
   */
  lemma MessageKeeps(r: Rib, mine: set<nat>, route: nat, nlri: Looked, withdrawn: Looked)
    requires Counted(r, mine) && route !in mine && |nlri| < 0x1_0000
    requires Fits(nlri, |r.slots|) && Fits(withdrawn, |r.slots|)
    requires route != NULL ==> !EarlyRepeat(Accepted(nlri, |nlri|))
    ensures var next, left := Message(r, route, nlri, withdrawn), MessageMine(r, mine, route, nlri, withdrawn);
            && Counted(next, left) && left <= MineWith(mine, route)
            && (set p | p in next.freed) == MineWith(mine, route) - left
            && Leaked(next, left) == Leaked(r, mine)
                + (if route != NULL && Accepted(nlri, |nlri|) == [] then {route} else {})
  {
    var start, all := Start(r, route), MineWith(mine, route);
    NlriSound(r, mine, route, nlri);
    var mid, midMine := Feed(start, nlri, |nlri|, route), MineAfter(start, all, nlri, |nlri|, route);
    WithdrawSound(mid, midMine, withdrawn, |withdrawn|);
    FreedInTurn(mid.freed, Message(r, route, nlri, withdrawn).freed, all, midMine,
                MessageMine(r, mine, route, nlri, withdrawn));
    assert Leaked(start, all) == Leaked(r, mine) + (if route == NULL then {} else {route}) by {
      StartCounted(r, mine, route);
    }
    if route != NULL { NotLeaked(r, mine, route); }
  }

  /** The slots after a message: a withdrawn one is empty, even if the same message announced it. */
  lemma MessageSlots(r: Rib, route: nat, nlri: Looked, withdrawn: Looked, s: nat)
    requires Fits(nlri, |r.slots|) && Fits(withdrawn, |r.slots|) && s < |r.slots|
    ensures Message(r, route, nlri, withdrawn).slots[s]
         == if s in Accepted(withdrawn, |withdrawn|) then NULL
            else if s in Accepted(nlri, |nlri|) then route else r.slots[s]
  {
    FeedSlots(Start(r, route), nlri, |nlri|, route, s);
    FeedSlots(Feed(Start(r, route), nlri, |nlri|, route), withdrawn, |withdrawn|, NULL, s);
  }

  /**
   Past that condition the damage goes on: the same prefix twice, then withdrawn by the
   same message, frees the route twice.
   */
  lemma RepeatedAndWithdrawn(r: Rib, route: nat, slot: nat)
    requires slot < |r.slots| && r.slots[slot] == NULL && route != NULL
    ensures Message(r, route, [Some(slot), Some(slot)], [Some(slot)]).freed == [route, route]
  {
    var start, list := Start(r, route), [Some(slot), Some(slot)];
    var one := Feed(start, list, 1, route);
    assert one == Update(Feed(start, list, 0, route), slot, false, route);
    var two := Feed(start, list, 2, route);
    assert two == Update(one, slot, true, route);
    assert two.freed == [route] && CountOf(two, route) == 1 && two.slots[slot] == route;
    assert Feed(two, [Some(slot)], 1, NULL) == Update(Feed(two, [Some(slot)], 0, NULL), slot, true, NULL);
  }

  // ---------------------------------------------------------------- the peer

  lemma RemoveBoth(all: set<nat>, some: set<nat>, p: nat)
    requires p in some && some <= all
    ensures some - {p} <= all - {p} && all - {p} - (some - {p}) == all - some
  {
  }

  lemma AddBoth(all: set<nat>, some: set<nat>, p: nat)
    requires p !in all && some <= all
    ensures some + {p} <= all + {p} && all + {p} - (some + {p}) == all - some
  {
  }

  lemma {:induction false} NoRepeatBefore(list: Looked, n: nat, m: nat)
    requires n <= m <= |list| && !EarlyRepeat(Accepted(list, m))
    ensures !EarlyRepeat(Accepted(list, n))
    decreases m - n
  {
    if n < m { NoRepeatBefore(list, n, m - 1); }
  }

  lemma MayPutNext(r: Rib, mine: set<nat>, list: Looked, k: nat, route: nat)
    requires k < |list| < 0x1_0000 && Fits(list, |r.slots|) && Counted(r, mine) && list[k].Some?
    requires route != NULL ==> route in mine && CountOf(r, route) == 0 && !EarlyRepeat(Accepted(list, |list|))
    ensures MayPut(Feed(r, list, k, route), MineAfter(r, mine, list, k, route), list[k].value, route)
  {
    if route == NULL {
      WithdrawSound(r, mine, list, k);
    } else {
      NoRepeatBefore(list, k, |list|);
      NoRepeatBefore(list, k + 1, |list|);
      AnnounceSound(r, mine, list, k, route);
      MayPutFresh(r, mine, list, k, route);
    }
  }

  class Peer {
    const adjRibIn: array<nat>
    const heap: Allocator
    const cache: nat
    var useCount: map<nat, uint16>
    var calls: seq<Call>
    ghost var freed: seq<nat>
    ghost var mine: set<nat>

    ghost function Book(): Rib
      reads this, adjRibIn
    {
      Rib(adjRibIn[..], useCount, freed, calls)
    }

    ghost predicate Valid()
      reads this, adjRibIn, heap
    {
      && heap.Valid() && cache < heap.Caches()
      && mine <= heap.InUse()
      && Counted(Book(), mine)
    }

    constructor (heap: Allocator, cache: nat, size: nat)
      requires heap.Valid() && cache < heap.Caches()
      ensures Valid() && fresh(adjRibIn) && this.heap == heap && this.cache == cache
      ensures Side(Book(), mine) == NewSide(size)
    {
      this.heap, this.cache := heap, cache;
      adjRibIn := new nat[size](_ => NULL);
      useCount, calls, freed, mine := map[], [], [], {};
      new;
      assert adjRibIn[..] == NewSide(size).rib.slots;
    }

    /** One reference less to a route; its block goes back to the allocator with the last one. */
    method Release(route: nat)
      requires heap.Valid() && cache < heap.Caches() && route != NULL && route in mine && mine <= heap.InUse()
      modifies `useCount, `freed, `mine, heap
      ensures Book() == Drop(old(Book()), route)
      ensures mine == if CountOf(old(Book()), route) == 1 then old(mine) - {route} else old(mine)
      ensures heap.Valid() && heap.Caches() == old(heap.Caches())
      ensures mine <= heap.InUse() && heap.InUse() - mine == old(heap.InUse() - mine)
      ensures OnlyCache(cache, old(heap.smallBooks), heap.smallBooks)
      ensures OnlyCache(cache, old(heap.largeBooks), heap.largeBooks)
    {
      RemoveBoth(heap.InUse(), mine, route);
      ghost var r := Book();
      var count := Less(if route in useCount then useCount[route] else 0);
      assert count == Less(CountOf(r, route));
      useCount := useCount[route := count];
      if 0 == count {
        heap.Dalloc(cache, route);
        freed, mine := freed + [route], mine - {route};
      }
      assert adjRibIn[..] == r.slots;
    }

    method EnterRoute(index: nat, eob: bool, route: nat, oldRoute: nat)
      modifies `useCount, `calls
      ensures Book() == Enter(old(Book()), index, eob, route, oldRoute)
    {
      if route != NULL {
        useCount := useCount[route := More(if route in useCount then useCount[route] else 0)];
        calls := calls + [Call(index, eob, route, true)];
      } else if oldRoute != NULL {
        calls := calls + [Call(index, eob, route, false)];
      }
    }

    method UpdateAdjRibIn(index: nat, eob: bool, route: nat)
      requires Valid() && index < adjRibIn.Length
      requires MayPut(Book(), mine, index, route)
      modifies this, adjRibIn, heap
      ensures Valid() && heap.Caches() == old(heap.Caches())
      ensures Book() == Update(old(Book()), index, eob, route)
      ensures mine == Left(old(Book()), old(mine), index, route)
      ensures heap.InUse() - mine == old(heap.InUse() - mine)
      ensures OnlyCache(cache, old(heap.smallBooks), heap.smallBooks)
      ensures OnlyCache(cache, old(heap.largeBooks), heap.largeBooks)
    {
      ghost var r, next, left := Book(), Update(Book(), index, eob, route), Left(Book(), mine, index, route);
      assert Counted(next, left) by { UpdateKeeps(r, mine, index, eob, route); }
      var oldRoute := adjRibIn[index];
      adjRibIn[index] := route;
      assert adjRibIn[..] == r.slots[index := route];
      if oldRoute != NULL {
        Release(oldRoute);
      }
      EnterRoute(index, eob, route, oldRoute);
      assert Book() == next && mine == left;
    }

    /** Is this what the first k prefixes of a list leave, from a state r with the routes `all` in use? */
    ghost predicate Fed(r: Rib, all: set<nat>, list: Looked, k: nat, route: nat)
      requires k <= |list| && Fits(list, |r.slots|)
      reads this, adjRibIn
    {
      Book() == Feed(r, list, k, route) && mine == MineAfter(r, all, list, k, route)
    }

    /** One prefix of a list: passed over when it is too long. */
    method PutNext(list: Looked, k: nat, route: nat, ghost r: Rib, ghost all: set<nat>)
      requires Valid() && k < |list| < 0x1_0000 && Fits(list, |r.slots|) && Counted(r, all)
               && Fed(r, all, list, k, route)
      requires route != NULL ==> route in all && CountOf(r, route) == 0 && !EarlyRepeat(Accepted(list, |list|))
      modifies this, adjRibIn, heap
      ensures Valid() && heap.Caches() == old(heap.Caches())
      ensures Fed(r, all, list, k + 1, route)
      ensures heap.InUse() - mine == old(heap.InUse() - mine)
      ensures OnlyCache(cache, old(heap.smallBooks), heap.smallBooks)
      ensures OnlyCache(cache, old(heap.largeBooks), heap.largeBooks)
    {
      if list[k].Some? {
        MayPutNext(r, all, list, k, route);
        UpdateAdjRibIn(list[k].value, k + 1 == |list|, route);
      }
    }

    /** Both lists of a message are walked like this; the last prefix is marked. */
    method PutAll(list: Looked, route: nat)
      requires Valid() && Fits(list, adjRibIn.Length) && |list| < 0x1_0000
      requires route != NULL ==> route in mine && CountOf(Book(), route) == 0 && !EarlyRepeat(Accepted(list, |list|))
      modifies this, adjRibIn, heap
      ensures Valid() && heap.Caches() == old(heap.Caches())
      ensures Fed(old(Book()), old(mine), list, |list|, route)
      ensures heap.InUse() - mine == old(heap.InUse() - mine)
      ensures OnlyCache(cache, old(heap.smallBooks), heap.smallBooks)
      ensures OnlyCache(cache, old(heap.largeBooks), heap.largeBooks)
    {
      ghost var r, all, others, caches := Book(), mine, heap.InUse() - mine, heap.Caches();
      ghost var small, large := heap.smallBooks, heap.largeBooks;
      var k := 0;
      while k < |list|
        invariant k <= |list| && Valid() && heap.Caches() == caches
        invariant Fed(r, all, list, k, route) && heap.InUse() - mine == others
        invariant OnlyCache(cache, small, heap.smallBooks) && OnlyCache(cache, large, heap.largeBooks)
      {
        PutNext(list, k, route, r, all);
        k := k + 1;
      }
    }

    /** A buffer for a new route, with a count of 0. */
    method NewRoute(size: nat) returns (ok: bool, route: nat)
      requires Valid() && heap.SafeFor(cache, size)
      modifies this, heap
      ensures ok ==> Valid() && heap.Caches() == old(heap.Caches())
      ensures ok ==> route != NULL && route !in old(heap.InUse()) && Book() == Start(old(Book()), route)
      ensures ok <==> old(heap.HasBlock(cache, size))
      ensures !ok ==> cache < heap.Caches() == |heap.largeLines| && !heap.HasBlock(cache, size)
      ensures ok ==> route == old(heap.NextBlock(cache, size))
      ensures ok ==> OnlyCache(cache, old(heap.smallBooks), heap.smallBooks)
      ensures ok ==> OnlyCache(cache, old(heap.largeBooks), heap.largeBooks)
      ensures ok ==> mine == old(mine) + {route} && heap.InUse() - mine == old(heap.InUse() - mine)
    {
      ghost var r, was := Book(), mine;
      ok, route := heap.Alloc(cache, size);
      if !ok {
        return;
      }
      AddBoth(old(heap.InUse()), was, route);
      assert Counted(Start(r, route), was + {route}) by { StartCounted(r, was, route); }
      useCount, freed, mine := useCount[route := 0], [], mine + {route};
      assert Book() == Start(r, route);
    }

    /** Both lists of a message, from the state that its start has left. */
    method PutMessage(nlri: Looked, withdrawn: Looked, route: nat, ghost r: Rib, ghost was: set<nat>)
      requires Valid() && Counted(r, was) && route !in was && |r.slots| == adjRibIn.Length
      requires Book() == Start(r, route) && mine == MineWith(was, route)
      requires Fits(nlri, adjRibIn.Length) && Fits(withdrawn, adjRibIn.Length)
      requires |nlri| < 0x1_0000 && |withdrawn| < 0x1_0000 && (route != NULL ==> !EarlyRepeat(Accepted(nlri, |nlri|)))
      modifies this, adjRibIn, heap
      ensures Valid() && heap.Caches() == old(heap.Caches())
      ensures heap.InUse() - mine == old(heap.InUse() - mine) && mine <= MineWith(was, route)
      ensures OnlyCache(cache, old(heap.smallBooks), heap.smallBooks)
      ensures OnlyCache(cache, old(heap.largeBooks), heap.largeBooks)
      ensures Book() == Message(r, route, nlri, withdrawn) && mine == MessageMine(r, was, route, nlri, withdrawn)
    {
      PutAll(nlri, route);
      PutAll(withdrawn, NULL);
      assert mine <= MineWith(was, route) by { MessageKeeps(r, was, route, nlri, withdrawn); }
    }

    /** The result is false where the allocator's assertion fails. */
    method ParseUpdate(length: nat, attributesLength: nat, nlri: Looked, withdrawn: Looked)
      returns (ok: bool, route: nat)
      requires Valid() && |nlri| + |withdrawn| <= length <= 4096
      requires Fits(nlri, adjRibIn.Length) && Fits(withdrawn, adjRibIn.Length)
      requires attributesLength > 0 && |nlri| > 0 ==>
                 heap.SafeFor(cache, length + ROUTE_SIZE) && !EarlyRepeat(Accepted(nlri, |nlri|))
      modifies this, adjRibIn, heap
      ensures ok ==> Valid() && heap.Caches() == old(heap.Caches())
      ensures ok ==> heap.InUse() - mine == old(heap.InUse() - mine) && mine <= MineWith(old(mine), route)
      ensures ok ==> (route != NULL <==> attributesLength > 0 && |nlri| > 0) && route !in old(mine)
      ensures ok <==> attributesLength > 0 && |nlri| > 0 ==> old(heap.HasBlock(cache, length + ROUTE_SIZE))
      ensures !ok ==> cache < heap.Caches() == |heap.largeLines| && !heap.HasBlock(cache, length + ROUTE_SIZE)
      ensures ok && route != NULL ==>
                route !in old(heap.InUse()) && route == old(heap.NextBlock(cache, length + ROUTE_SIZE))
      ensures ok && route != NULL ==>
                route == old(if length > 216 then TakenBlock(heap.large, heap.largeLines[cache])
                             else TakenBlock(heap.small, heap.smallLines[cache]))
      ensures ok ==> OnlyCache(cache, old(heap.smallBooks), heap.smallBooks)
      ensures ok ==> OnlyCache(cache, old(heap.largeBooks), heap.largeBooks)
      ensures ok && |nlri| + |withdrawn| == 0 ==> Book() == old(Book()) && mine == old(mine)
      ensures ok && |nlri| + |withdrawn| > 0 ==>
                && Book() == Message(old(Book()), route, nlri, withdrawn)
                && mine == MessageMine(old(Book()), old(mine), route, nlri, withdrawn)
    {
      ok, route := true, NULL;
      if |nlri| == 0 && |withdrawn| == 0 {
        return;
      }
      ghost var r, was := Book(), mine;
      if attributesLength > 0 && |nlri| > 0 {
        ok, route := NewRoute(length + ROUTE_SIZE);
        if !ok {
          return;
        }
      } else {
        freed := [];
      }
      PutMessage(nlri, withdrawn, route, r, was);
    }
  }
}
