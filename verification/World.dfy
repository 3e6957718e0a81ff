/**
 Several peers on one Loc-RIB whose heads are blocks of memory. A block that is freed can
 be filled again while it is still the head of an address, and a request is compared with
 what lies in the head's block at that moment.
 */
module World {
  import opened Basics
  import opened Pools
  import opened Grouping
  import opened LocRib
  import opened Requests
  import opened RunLength
  import opened AdjRibIn
  import OutputPhase

  /** More prefixes than this do not fit a message. */
  const PREFIX_LIMIT: nat := 4096

  /** A request and the peer that made it. */
  type Asked = Marked<nat>

  /**
   The peers, what was last read into each block, the Loc-RIB heads and push flags, the
   journal, what the listener was told, and whether the output phase has failed; besides,
   the requests in lock order, and how often each block has been put into a slot since it
   was filled.
   */
  datatype World = World(
    sides: seq<Side>, contents: map<nat, Route>, heads: seq<nat>, flags: seq<bool>, journal: seq<nat>,
    announced: Blocks, failed: bool, log: seq<Asked>, puts: map<nat, nat>)

  datatype Step =
    | Fill(peer: nat, block: nat, route: Route)          // a route is allocated and read in; NULL if there is none
    | Put(peer: nat, index: nat, eob: bool, block: nat)  // it is put into a slot, or NULL is: a withdraw
    | Flush                                              // the output phase runs, to its end or to a failure

  function Init(size: nat, peers: nat): World {
    World(seq(peers, _ => NewSide(size)), map[],
          seq(size, _ => NULL), seq(size, _ => false), [], Nothing, false, [], map[])
  }

  function Held(contents: map<nat, Route>, p: nat): Head {
    if p != NULL && p in contents then Some(contents[p]) else None
  }

  function Puts(w: World, p: nat): nat {
    if p in w.puts then w.puts[p] else 0
  }

  /** The Loc-RIB as its entries are read: what lies in the heads' blocks, and the flags. */
  function Entries(w: World): (es: seq<Entry>)
    requires |w.heads| == |w.flags|
    ensures |es| == |w.heads|
  {
    seq(|w.heads|, a requires 0 <= a < |w.heads| => Entry(Held(w.contents, w.heads[a]), w.flags[a]))
  }

  ghost predicate Readable(w: World) {
    |w.heads| == |w.flags| && forall a <- w.journal :: a < |w.heads|
  }

  /** The journalled addresses with what the output phase reads for them. */
  ghost function Pending(w: World): (ps: seq<Pair>)
    requires Readable(w)
    ensures |ps| == |w.journal|
  {
    HeadsOf(w.journal, Entries(w))
  }

  /** Does every run of the output phase fit the address table? */
  ghost predicate RunsFit(w: World)
    requires Readable(w)
  {
    RunsWithin(GroupRuns(Pending(w)), OutputPhase.TABLE_SIZE)
  }

  /** What the listener heard last of an address. */
  function HeardLast(w: World, a: nat): Head {
    LastAnnounced(Flatten(w.announced), a)
  }

  /** No block and no request carries a route with this number. */
  ghost predicate Unseen(w: World, unique: nat) {
    && (forall p <- w.contents :: w.contents[p].unique != unique)
    && (forall q <- w.log :: q.req.newRoute.Some? ==> q.req.newRoute.value.unique != unique)
  }

  ghost predicate InUse(w: World, p: nat) {
    exists i: nat :: i < |w.sides| && p in w.sides[i].mine
  }

  /** A block read into is not in use, a slot does not free its own route, and a message has only so many prefixes. */
  ghost predicate Enabled(w: World, s: Step) {
    !w.failed && match s
    case Fill(i, p, r) => i < |w.sides| && (p != NULL ==> !InUse(w, p) && Unseen(w, r.unique))
    case Put(i, a, _, p) =>
      && i < |w.sides| && a < |w.heads| == |w.flags| && MayPut(w.sides[i].rib, w.sides[i].mine, a, p)
      && (p != NULL ==> p in w.contents && Puts(w, p) < PREFIX_LIMIT)
    case Flush => Readable(w)
  }

  /** Does the Loc-RIB take this block as head? Only if another record lies in it than in the head's block. */
  predicate Takes(w: World, a: nat, p: nat)
    requires a < |w.heads|
  {
    !SameTiebreak(Held(w.contents, w.heads[a]), Held(w.contents, p))
  }

  ghost function Request(w: World, i: nat, a: nat, p: nat): seq<Asked>
    requires i < |w.sides| && a < |w.sides[i].rib.slots|
  {
    if p != NULL then [Marked(Req(a, Held(w.contents, p), true), i)]
    else if w.sides[i].rib.slots[a] != NULL then [Marked(Req(a, None, false), i)]
    else []
  }

  ghost function Next(w: World, s: Step): World
    requires Enabled(w, s)
  {
    match s
    case Fill(i, p, r) =>
      var side := Side(AdjRibIn.Start(w.sides[i].rib, p), MineWith(w.sides[i].mine, p));
      if p == NULL then w.(sides := w.sides[i := side])
      else w.(sides := w.sides[i := side], contents := w.contents[p := r], puts := w.puts[p := 0])
    case Put(i, a, eob, p) =>
      var rib, mine := w.sides[i].rib, w.sides[i].mine;
      var took := p != NULL && Takes(w, a, p);
      w.(sides := w.sides[i := Side(Update(rib, a, eob, p), Left(rib, mine, a, p))],
         heads := if took then w.heads[a := p] else w.heads,
         flags := if took then w.flags[a := true] else w.flags,
         journal := w.journal + if took && !w.flags[a] then [a] else [],
         log := w.log + Request(w, i, a, p),
         puts := if p == NULL then w.puts else w.puts[p := Puts(w, p) + 1])
    case Flush =>
      if RunsFit(w) then
        w.(announced := Concat(w.announced, GroupRuns(Pending(w))), flags := seq(|w.heads|, _ => false), journal := [])
      else w.(failed := true)
  }

  /** Once the output phase has ended the listener has the heads of the journalled addresses, and else what it had. */
  lemma FlushTells(w: World, a: nat)
    requires Enabled(w, Flush) && RunsFit(w)
    ensures HeardLast(Next(w, Flush), a)
         == if a in w.journal then Entries(w)[a].head else HeardLast(w, a)
  {
    FlattenConcat(w.announced, GroupRuns(Pending(w)));
    GroupRunsPartitions(Pending(w));
    LastOfHeads(Flatten(w.announced), w.journal, Entries(w), a);
  }

  // ---------------------------------------------------------------- what was announced last

  /** The route a peer announced last for an address. */
  function LastBy(log: seq<Asked>, i: nat, a: nat): Head {
    if log == [] then None
    else
      var q := log[|log| - 1];
      if q.mark == i && q.req.addr == a && q.req.update then q.req.newRoute else LastBy(log[..|log| - 1], i, a)
  }

  /** The peer that announced an address last. */
  function LastPeer(log: seq<Asked>, a: nat): Option<nat> {
    if log == [] then None
    else
      var q := log[|log| - 1];
      if q.req.addr == a && q.req.update then Some(q.mark) else LastPeer(log[..|log| - 1], a)
  }

  lemma ReqsSnoc(log: seq<Asked>, q: Asked)
    ensures ReqsOf(log + [q]) == ReqsOf(log) + [q.req]
  {
  }

  lemma {:induction false} LastOfAll(log: seq<Asked>, a: nat)
    ensures NewWins(ReqsOf(log), a) == match LastPeer(log, a) case None => None case Some(i) => LastBy(log, i, a)
  {
    if log != [] {
      var n := |log| - 1;
      LastOfAll(log[..n], a);
      assert ReqsOf(log)[..n] == ReqsOf(log[..n]);
    }
  }

  lemma LastBySnoc(log: seq<Asked>, q: Asked, i: nat, a: nat)
    ensures LastBy(log + [q], i, a)
         == if q.mark == i && q.req.addr == a && q.req.update then q.req.newRoute else LastBy(log, i, a)
  {
    assert (log + [q])[..|log|] == log;
  }

  lemma HeadAfterSnoc(reqs: seq<Req>, r: Req, a: nat)
    ensures HeadAfter(reqs + [r], a) ==
            var before := HeadAfter(reqs, a);
            if r.addr == a && (r.update ==> r.newRoute.Some?) && Accepts(Entry(before, false), r.newRoute, r.update)
            then r.newRoute else before
  {
    assert (reqs + [r])[..|reqs|] == reqs;
  }

  // ---------------------------------------------------------------- what always holds

  ghost predicate Shaped(w: World, size: nat, peers: nat) {
    && |w.heads| == |w.flags| == size && |w.sides| == peers
    && forall i: nat | i < peers :: |w.sides[i].rib.slots| == size
  }

  /** The peers' books are in order, no two peers use one block, and every block in use has been filled. */
  ghost predicate SidesOk(w: World) {
    && (forall i: nat | i < |w.sides| :: Counted(w.sides[i].rib, w.sides[i].mine))
    && (forall i: nat, j: nat | i < j < |w.sides| :: w.sides[i].mine !! w.sides[j].mine)
    && (forall i: nat | i < |w.sides| :: forall p <- w.sides[i].mine :: p in w.contents)
  }

  /** No two blocks hold one route, and a head's block has been filled. */
  ghost predicate ContentsOk(w: World) {
    && NULL !in w.contents
    && (forall p <- w.contents, q <- w.contents :: w.contents[p].unique == w.contents[q].unique ==> p == q)
    && (forall p <- w.heads :: p == NULL || p in w.contents)
  }

  ghost predicate LogOk(w: World) {
    forall q <- w.log :: q.req.update == q.req.newRoute.Some?
  }

  /** A slot that holds a block was last announced, by its peer, with what lies in the block. */
  ghost predicate SlotsCurrent(w: World) {
    forall i: nat, a: nat | i < |w.sides| && a < |w.sides[i].rib.slots| && w.sides[i].rib.slots[a] != NULL ::
      LastBy(w.log, i, a) == Held(w.contents, w.sides[i].rib.slots[a])
  }

  /** The journal holds the addresses whose flag is set, each once, and they have heads. */
  ghost predicate JournalOk(w: World) {
    && Readable(w) && Distinct(w.journal)
    && (forall a <- w.journal :: w.flags[a])
    && forall a: nat | a < |w.flags| && w.flags[a] :: a in w.journal && w.heads[a] != NULL
  }

  /** No route is asked for more often than its block was put, or than a message has prefixes. */
  ghost predicate AskedOk(w: World) {
    && (forall p <- w.puts :: w.puts[p] <= PREFIX_LIMIT)
    && (forall p <- w.contents :: AskedFor(ReqsOf(w.log), Held(w.contents, p)) <= Puts(w, p))
    && (forall route: Route :: AskedFor(ReqsOf(w.log), Some(route)) <= PREFIX_LIMIT)
  }

  ghost predicate Inv(w: World, size: nat, peers: nat) {
    && Shaped(w, size, peers) && SidesOk(w) && ContentsOk(w) && JournalOk(w)
    && LogOk(w) && SlotsCurrent(w) && AskedOk(w)
  }

  lemma FillSides(w: World, size: nat, peers: nat, s: Step)
    requires Inv(w, size, peers) && Enabled(w, s) && s.Fill?
    ensures Shaped(Next(w, s), size, peers) && SidesOk(Next(w, s)) && ContentsOk(Next(w, s))
  {
    StartCounted(w.sides[s.peer].rib, w.sides[s.peer].mine, s.block);
    if s.block != NULL {
      forall i: nat | i < |w.sides| ensures s.block !in w.sides[i].mine {}
    }
  }

  lemma PutSides(w: World, size: nat, peers: nat, s: Step)
    requires Inv(w, size, peers) && Enabled(w, s) && s.Put?
    ensures Shaped(Next(w, s), size, peers) && SidesOk(Next(w, s)) && ContentsOk(Next(w, s))
  {
    UpdateKeeps(w.sides[s.peer].rib, w.sides[s.peer].mine, s.index, s.eob, s.block);
  }

  lemma FillAsked(w: World, size: nat, peers: nat, s: Step)
    requires Inv(w, size, peers) && Enabled(w, s) && s.Fill?
    ensures AskedOk(Next(w, s))
  {
    if s.block != NULL {
      forall q <- ReqsOf(w.log) ensures q.newRoute != Some(s.route) {
        var k: nat :| k < |w.log| && w.log[k].req == q;
        assert w.log[k] in w.log;
      }
      NotAsked(ReqsOf(w.log), Some(s.route));
    }
  }

  lemma LogGrows(w: World, s: Step, route: Head)
    requires Enabled(w, s) && s.Put? && s.index < |w.sides[s.peer].rib.slots|
    ensures var asked := Request(w, s.peer, s.index, s.block);
            AskedFor(ReqsOf(Next(w, s).log), route)
              == AskedFor(ReqsOf(w.log), route) + if asked != [] && asked[0].req.newRoute == route then 1 else 0
  {
    var next, asked := Next(w, s), Request(w, s.peer, s.index, s.block);
    if asked == [] {
      assert next.log == w.log;
    } else {
      ReqsSnoc(w.log, asked[0]);
      AskedForSnoc(ReqsOf(w.log), asked[0].req, route);
    }
  }

  lemma PutAsked(w: World, size: nat, peers: nat, s: Step)
    requires Inv(w, size, peers) && Enabled(w, s) && s.Put?
    ensures AskedOk(Next(w, s))
  {
    var next := Next(w, s);
    forall p <- next.contents ensures AskedFor(ReqsOf(next.log), Held(next.contents, p)) <= Puts(next, p) {
      LogGrows(w, s, Held(w.contents, p));
    }
    forall route: Route ensures AskedFor(ReqsOf(next.log), Some(route)) <= PREFIX_LIMIT {
      LogGrows(w, s, Some(route));
    }
  }

  lemma PutSlots(w: World, size: nat, peers: nat, s: Step)
    requires Inv(w, size, peers) && Enabled(w, s) && s.Put?
    ensures SlotsCurrent(Next(w, s)) && LogOk(Next(w, s))
  {
    var next, asked := Next(w, s), Request(w, s.peer, s.index, s.block);
    assert asked == [] ==> next.log == w.log;
    forall i: nat, a: nat | i < |next.sides| && a < |next.sides[i].rib.slots| && next.sides[i].rib.slots[a] != NULL
      ensures LastBy(next.log, i, a) == Held(next.contents, next.sides[i].rib.slots[a])
    {
      if asked != [] { LastBySnoc(w.log, asked[0], i, a); }
    }
  }

  lemma FillSlots(w: World, size: nat, peers: nat, s: Step)
    requires Inv(w, size, peers) && Enabled(w, s) && s.Fill?
    ensures SlotsCurrent(Next(w, s))
  {
    var next := Next(w, s);
    forall i: nat, a: nat | i < |next.sides| && a < |next.sides[i].rib.slots| && next.sides[i].rib.slots[a] != NULL
      ensures LastBy(next.log, i, a) == Held(next.contents, next.sides[i].rib.slots[a])
    {
      assert w.sides[i].rib.slots[a] in w.sides[i].mine;
    }
  }

  lemma PutJournal(w: World, size: nat, peers: nat, s: Step)
    requires Inv(w, size, peers) && Enabled(w, s) && s.Put?
    ensures JournalOk(Next(w, s))
  {
    var next := Next(w, s);
    if next.journal != w.journal { assert s.index !in w.journal; }
  }

  lemma FlushInv(w: World, size: nat, peers: nat)
    requires Inv(w, size, peers) && Enabled(w, Flush)
    ensures Inv(Next(w, Flush), size, peers)
  {
  }

  lemma FillInv(w: World, size: nat, peers: nat, s: Step)
    requires Inv(w, size, peers) && Enabled(w, s) && s.Fill?
    ensures Inv(Next(w, s), size, peers)
  {
    FillSides(w, size, peers, s);
    FillSlots(w, size, peers, s);
    FillAsked(w, size, peers, s);
  }

  lemma PutInv(w: World, size: nat, peers: nat, s: Step)
    requires Inv(w, size, peers) && Enabled(w, s) && s.Put?
    ensures Inv(Next(w, s), size, peers)
  {
    PutSides(w, size, peers, s);
    PutSlots(w, size, peers, s);
    PutJournal(w, size, peers, s);
    PutAsked(w, size, peers, s);
  }

  lemma StepInv(w: World, size: nat, peers: nat, s: Step)
    requires Inv(w, size, peers) && Enabled(w, s)
    ensures Inv(Next(w, s), size, peers)
  {
    match s
    case Fill(_, _, _) => FillInv(w, size, peers, s);
    case Put(_, _, _, _) => PutInv(w, size, peers, s);
    case Flush => FlushInv(w, size, peers);
  }
}
