/**
 The books an allocator keeps over one pool of equal blocks: a bump index, and for
 every cache a free list threaded through the first word of each free block.
 */
module Pools {
  import opened Basics

  const NULL: nat := 0
  const WORD: nat := 8

  /** Where the pool starts, how many blocks were ever issued, how many there are, and their size. */
  datatype Pool = Pool(buf: nat, index: nat, indexMax: nat, allocMax: nat)

  /** The head of one free list and its length. */
  datatype Line = Line(free: nat, freeCount: uint32)

  type Memory = map<nat, nat>

  /** The pointer-sized word at an address; pages never written are zero. */
  function Word(memory: Memory, p: nat): nat {
    if p in memory then memory[p] else 0
  }

  function BlockAt(pool: Pool, i: nat): nat {
    pool.buf + pool.allocMax * i
  }

  // ---------------------------------------------------------------- the books

  /** An issued block is in use, or the depth-th from the bottom of one cache's free list. */
  datatype Place = Live | Free(cache: nat, depth: nat)

  /** The place of every issued block, and the free list of every cache, bottom first. */
  datatype Books = Books(places: seq<Place>, lists: seq<seq<nat>>)

  function CountLive(places: seq<Place>): nat {
    if |places| == 0 then 0
    else CountLive(places[..|places| - 1]) + if places[|places| - 1].Live? then 1 else 0
  }

  function TotalFree(lists: seq<seq<nat>>): nat {
    if |lists| == 0 then 0 else TotalFree(lists[..|lists| - 1]) + |lists[|lists| - 1]|
  }

  /** What points to the k-th block from the bottom: the word in block k - 1's place. */
  function Below(pool: Pool, list: seq<nat>, k: nat): nat
    requires k <= |list|
  {
    if k == 0 then NULL else BlockAt(pool, list[k - 1])
  }

  ghost predicate ChainOk(pool: Pool, line: Line, memory: Memory, list: seq<nat>) {
    && line.freeCount == |list|
    && line.free == Below(pool, list, |list|)
    && forall k: nat | k < |list| :: Word(memory, BlockAt(pool, list[k])) == Below(pool, list, k)
  }

  ghost predicate PlaceOk(books: Books, i: nat)
    requires i < |books.places|
  {
    var p := books.places[i];
    p.Free? ==> p.cache < |books.lists| && p.depth < |books.lists[p.cache]| && books.lists[p.cache][p.depth] == i
  }

  ghost predicate ListOk(books: Books, c: nat)
    requires c < |books.lists|
  {
    forall k: nat | k < |books.lists[c]| ::
      books.lists[c][k] < |books.places| && books.places[books.lists[c][k]] == Free(c, k)
  }

  /** Every issued block is in exactly one place, once, and issued == in use + free. */
  ghost predicate BooksOk(books: Books) {
    && (forall i: nat | i < |books.places| :: PlaceOk(books, i))
    && (forall c: nat | c < |books.lists| :: ListOk(books, c))
    && CountLive(books.places) + TotalFree(books.lists) == |books.places|
  }

  ghost predicate ChainsOk(pool: Pool, lines: seq<Line>, memory: Memory, lists: seq<seq<nat>>) {
    && |lines| == |lists|
    && forall c: nat | c < |lines| :: ChainOk(pool, lines[c], memory, lists[c])
  }

  ghost predicate PoolOk(pool: Pool, lines: seq<Line>, memory: Memory, books: Books) {
    && pool.buf > 0 && pool.allocMax >= WORD
    && |books.places| == pool.index <= pool.indexMax < 0x8000_0000
    && BooksOk(books)
    && ChainsOk(pool, lines, memory, books.lists)
  }

  /** The blocks in use. */
  ghost function LiveBlocks(pool: Pool, places: seq<Place>): set<nat> {
    set i: nat | i < |places| && places[i].Live? :: BlockAt(pool, i)
  }

  /** The free blocks of one list, the next to be reused last. */
  ghost function FreeBlocks(pool: Pool, list: seq<nat>): (s: seq<nat>)
    ensures |s| == |list|
  {
    seq(|list|, k requires 0 <= k < |list| => BlockAt(pool, list[k]))
  }

  // ---------------------------------------------------------------- counting

  lemma {:induction false} CountUpdate(places: seq<Place>, i: nat, p: Place)
    requires i < |places|
    ensures CountLive(places[i := p])
         == CountLive(places) - (if places[i].Live? then 1 else 0) + (if p.Live? then 1 else 0)
  {
    var n := |places| - 1;
    if i < n {
      CountUpdate(places[..n], i, p);
      assert places[i := p][..n] == places[..n][i := p];
    } else {
      assert places[i := p][..n] == places[..n];
    }
  }

  lemma {:induction false} TotalUpdate(lists: seq<seq<nat>>, c: nat, list: seq<nat>)
    requires c < |lists|
    ensures TotalFree(lists[c := list]) == TotalFree(lists) - |lists[c]| + |list|
  {
    var n := |lists| - 1;
    if c < n {
      TotalUpdate(lists[..n], c, list);
      assert lists[c := list][..n] == lists[..n][c := list];
    } else {
      assert lists[c := list][..n] == lists[..n];
    }
  }

  lemma {:induction false} OneListAtMost(lists: seq<seq<nat>>, c: nat)
    requires c < |lists|
    ensures |lists[c]| <= TotalFree(lists)
  {
    if c < |lists| - 1 { OneListAtMost(lists[..|lists| - 1], c); }
  }

  lemma {:induction false} NothingFree(lists: seq<seq<nat>>)
    requires forall c: nat | c < |lists| :: lists[c] == []
    ensures TotalFree(lists) == 0
  {
    if |lists| > 0 { NothingFree(lists[..|lists| - 1]); }
  }

  // ---------------------------------------------------------------- blocks

  lemma BlockNotNull(pool: Pool, i: nat)
    requires pool.buf > 0
    ensures BlockAt(pool, i) != NULL
  {
    Scale(0, i, pool.allocMax);
  }

  lemma BlockOrder(pool: Pool, i: nat, j: nat)
    requires i < j
    ensures BlockAt(pool, i) + pool.allocMax <= BlockAt(pool, j)
  {
    Scale(i + 1, j, pool.allocMax);
  }

  /** Two blocks of one pool have no octet in common. */
  lemma BlocksApart(pool: Pool, i: nat, j: nat)
    requires i != j
    ensures BlockAt(pool, i) + pool.allocMax <= BlockAt(pool, j) || BlockAt(pool, j) + pool.allocMax <= BlockAt(pool, i)
  {
    if i < j { BlockOrder(pool, i, j); } else { BlockOrder(pool, j, i); }
  }

  // The blocks in use when one block changes its place.

  lemma LiveGains(pool: Pool, places: seq<Place>, places': seq<Place>, i: nat)
    requires pool.allocMax > 0 && |places| <= |places'| && i < |places'|
    requires places'[i].Live? && (i < |places| ==> !places[i].Live?)
    requires forall j: nat | j < |places'| && j != i :: j < |places| && places'[j] == places[j]
    ensures LiveBlocks(pool, places') == LiveBlocks(pool, places) + {BlockAt(pool, i)}
    ensures BlockAt(pool, i) !in LiveBlocks(pool, places)
  {
    forall j: nat | j < |places| && places[j].Live?
      ensures BlockAt(pool, j) in LiveBlocks(pool, places') && BlockAt(pool, j) != BlockAt(pool, i)
    {
      assert places'[j].Live?;
      BlocksApart(pool, i, j);
    }
  }

  lemma LiveLoses(pool: Pool, places: seq<Place>, i: nat, p: Place)
    requires pool.allocMax > 0 && i < |places| && places[i].Live? && !p.Live?
    ensures LiveBlocks(pool, places[i := p]) == LiveBlocks(pool, places) - {BlockAt(pool, i)}
  {
    LiveGains(pool, places[i := p], places, i);
  }

  // ---------------------------------------------------------------- steps

  /** Nothing changes for the pool when no free block's first word does. */
  lemma Untouched(pool: Pool, lines: seq<Line>, memory: Memory, books: Books, memory': Memory)
    requires PoolOk(pool, lines, memory, books)
    requires forall i: nat | i < pool.index && books.places[i].Free? ::
               Word(memory', BlockAt(pool, i)) == Word(memory, BlockAt(pool, i))
    ensures PoolOk(pool, lines, memory', books)
  {
    forall c: nat | c < |lines| ensures ChainOk(pool, lines[c], memory', books.lists[c]) {
      assert ListOk(books, c) && ChainOk(pool, lines[c], memory, books.lists[c]);
    }
  }

  function Issue(books: Books): Books {
    books.(places := books.places + [Live])
  }

  function Reuse(books: Books, c: nat): Books
    requires c < |books.lists| && |books.lists[c]| > 0
    requires books.lists[c][|books.lists[c]| - 1] < |books.places|
  {
    var n := |books.lists[c]| - 1;
    Books(books.places[books.lists[c][n] := Live], books.lists[c := books.lists[c][..n]])
  }

  function Return(books: Books, c: nat, i: nat): Books
    requires c < |books.lists| && i < |books.places|
  {
    Books(books.places[i := Free(c, |books.lists[c]|)], books.lists[c := books.lists[c] + [i]])
  }

  lemma IssueKeepsBooks(books: Books)
    requires BooksOk(books)
    ensures BooksOk(Issue(books))
  {
    var next := Issue(books);
    assert next.places[..|books.places|] == books.places;
    forall i: nat | i < |next.places| ensures PlaceOk(next, i) {
      if i < |books.places| { assert PlaceOk(books, i); }
    }
    forall c: nat | c < |next.lists| ensures ListOk(next, c) {
      assert ListOk(books, c);
    }
  }

  lemma ReuseKeepsBooks(books: Books, c: nat)
    requires BooksOk(books) && c < |books.lists| && |books.lists[c]| > 0
    ensures ListOk(books, c) && BooksOk(Reuse(books, c))
  {
    assert ListOk(books, c);
    var next, n := Reuse(books, c), |books.lists[c]| - 1;
    CountUpdate(books.places, books.lists[c][n], Live);
    TotalUpdate(books.lists, c, books.lists[c][..n]);
    forall i: nat | i < |next.places| ensures PlaceOk(next, i) {
      assert PlaceOk(books, i);
    }
    forall d: nat | d < |next.lists| ensures ListOk(next, d) {
      assert ListOk(books, d);
    }
  }

  lemma ReturnKeepsBooks(books: Books, c: nat, i: nat)
    requires BooksOk(books) && c < |books.lists| && i < |books.places| && books.places[i].Live?
    ensures BooksOk(Return(books, c, i))
  {
    var next := Return(books, c, i);
    CountUpdate(books.places, i, Free(c, |books.lists[c]|));
    TotalUpdate(books.lists, c, books.lists[c] + [i]);
    forall j: nat | j < |next.places| ensures PlaceOk(next, j) {
      assert PlaceOk(books, j);
    }
    forall d: nat | d < |next.lists| ensures ListOk(next, d) {
      assert ListOk(books, d);
    }
  }

  /** A list keeps its chain when only the first word of a block outside it is written. */
  lemma ChainElsewhere(pool: Pool, line: Line, memory: Memory, list: seq<nat>, i: nat, w: nat)
    requires pool.allocMax > 0 && ChainOk(pool, line, memory, list) && i !in list
    ensures ChainOk(pool, line, memory[BlockAt(pool, i) := w], list)
  {
    forall k: nat | k < |list|
      ensures Word(memory[BlockAt(pool, i) := w], BlockAt(pool, list[k])) == Below(pool, list, k)
    {
      BlocksApart(pool, i, list[k]);
    }
  }

  lemma ChainPop(pool: Pool, line: Line, memory: Memory, list: seq<nat>)
    requires ChainOk(pool, line, memory, list) && |list| > 0
    ensures ChainOk(pool, Line(Word(memory, line.free), line.freeCount - 1), memory, list[..|list| - 1])
  {
    var rest := list[..|list| - 1];
    forall k: nat | k <= |rest| ensures Below(pool, rest, k) == Below(pool, list, k) {}
  }

  lemma ChainPush(pool: Pool, line: Line, memory: Memory, list: seq<nat>, i: nat)
    requires pool.allocMax > 0 && ChainOk(pool, line, memory, list) && i !in list && line.freeCount + 1 < 0x1_0000_0000
    ensures var p := BlockAt(pool, i);
            ChainOk(pool, Line(p, line.freeCount + 1), memory[p := line.free], list + [i])
  {
    var p := BlockAt(pool, i);
    ChainElsewhere(pool, line, memory, list, i, line.free);
    forall k: nat | k <= |list| ensures Below(pool, list + [i], k) == Below(pool, list, k) {}
  }

  /** A block went into use: the top of the cache's list, or the next one of the pool when that list was empty. */
  ghost predicate Took(pool: Pool, books: Books, pool': Pool, books': Books, c: nat, p: nat)
    requires c < |books.lists|
  {
    && LiveBlocks(pool', books'.places) == LiveBlocks(pool, books.places) + {p}
    && p !in LiveBlocks(pool, books.places)
    && pool' == pool.(index := pool'.index)
    && |books'.lists| == |books.lists|
    && (forall d: nat | d < |books.lists| && d != c :: books'.lists[d] == books.lists[d])
    && if books.lists[c] == []
       then books'.lists[c] == [] && pool'.index == pool.index + 1 && p == BlockAt(pool, pool.index)
       else pool'.index == pool.index && FreeBlocks(pool, books.lists[c]) == FreeBlocks(pool, books'.lists[c]) + [p]
  }

  /** A block in use went on top of the cache's list. */
  ghost predicate Gave(pool: Pool, books: Books, books': Books, c: nat, p: nat)
    requires c < |books.lists|
  {
    && p in LiveBlocks(pool, books.places)
    && LiveBlocks(pool, books'.places) == LiveBlocks(pool, books.places) - {p}
    && |books'.lists| == |books.lists|
    && (forall d: nat | d < |books.lists| && d != c :: books'.lists[d] == books.lists[d])
    && FreeBlocks(pool, books'.lists[c]) == FreeBlocks(pool, books.lists[c]) + [p]
  }

  /** No cache but this one has gained or lost a free block. */
  ghost predicate OnlyCache(c: nat, before: Books, now: Books) {
    |now.lists| == |before.lists| && forall d: nat | d < |before.lists| && d != c :: now.lists[d] == before.lists[d]
  }

  lemma IssueTakes(pool: Pool, books: Books, c: nat)
    requires pool.allocMax > 0 && c < |books.lists| && books.lists[c] == [] && |books.places| == pool.index
    ensures Took(pool, books, pool.(index := pool.index + 1), Issue(books), c, BlockAt(pool, pool.index))
  {
    var grown := pool.(index := pool.index + 1);
    LiveGains(pool, books.places, Issue(books).places, pool.index);
    assert forall i: nat :: BlockAt(grown, i) == BlockAt(pool, i);
    assert LiveBlocks(grown, Issue(books).places) == LiveBlocks(pool, Issue(books).places);
  }

  lemma NothingToReuse(pool: Pool, lines: seq<Line>, memory: Memory, books: Books, c: nat)
    requires PoolOk(pool, lines, memory, books) && c < |lines|
    ensures lines[c].free == NULL <==> books.lists[c] == []
    ensures lines[c].free != NULL ==> lines[c].freeCount > 0
  {
    assert ChainOk(pool, lines[c], memory, books.lists[c]);
  }

  /** A new block from the bump index keeps the pool. */
  lemma IssueKeeps(pool: Pool, lines: seq<Line>, memory: Memory, books: Books, c: nat)
    requires PoolOk(pool, lines, memory, books) && c < |lines| && lines[c].free == NULL && pool.index < pool.indexMax
    ensures var grown := pool.(index := pool.index + 1);
            && PoolOk(grown, lines, memory, Issue(books))
            && Took(pool, books, grown, Issue(books), c, BlockAt(pool, pool.index))
  {
    var grown := pool.(index := pool.index + 1);
    assert BooksOk(Issue(books)) by { IssueKeepsBooks(books); }
    NothingToReuse(pool, lines, memory, books, c);
    IssueTakes(pool, books, c);
    forall d: nat | d < |lines| ensures ChainOk(grown, lines[d], memory, books.lists[d]) {
      assert ChainOk(pool, lines[d], memory, books.lists[d]);
      assert forall i: nat :: BlockAt(grown, i) == BlockAt(pool, i);
    }
  }

  lemma ReuseTakes(pool: Pool, books: Books, c: nat)
    requires pool.allocMax > 0 && BooksOk(books) && c < |books.lists| && |books.lists[c]| > 0
    ensures ListOk(books, c)
    ensures Took(pool, books, pool, Reuse(books, c), c, BlockAt(pool, books.lists[c][|books.lists[c]| - 1]))
  {
    assert ListOk(books, c);
    LiveGains(pool, books.places, Reuse(books, c).places, books.lists[c][|books.lists[c]| - 1]);
  }

  /** Taking the block on top of a free list keeps the pool. */
  lemma ReuseKeeps(pool: Pool, lines: seq<Line>, memory: Memory, books: Books, c: nat)
    requires PoolOk(pool, lines, memory, books) && c < |lines| && lines[c].free != NULL
    ensures |books.lists[c]| > 0 && lines[c].freeCount > 0 && ListOk(books, c)
    ensures var line := Line(Word(memory, lines[c].free), lines[c].freeCount - 1);
            && PoolOk(pool, lines[c := line], memory, Reuse(books, c))
            && Took(pool, books, pool, Reuse(books, c), c, lines[c].free)
  {
    assert ChainOk(pool, lines[c], memory, books.lists[c]);
    ReuseTakes(pool, books, c);
    assert BooksOk(Reuse(books, c)) by { ReuseKeepsBooks(books, c); }
    ChainPop(pool, lines[c], memory, books.lists[c]);
    forall d: nat | d < |lines| && d != c ensures ChainOk(pool, lines[d], memory, books.lists[d]) {}
  }

  // One allocation: the pool, the list and the books after it.

  function Taken(pool: Pool, line: Line): Pool {
    if line.free == NULL then pool.(index := pool.index + 1) else pool
  }

  function Rest(line: Line, memory: Memory): Line
    requires line.free != NULL ==> line.freeCount > 0
  {
    if line.free == NULL then line else Line(Word(memory, line.free), line.freeCount - 1)
  }

  function TakenBlock(pool: Pool, line: Line): nat {
    if line.free == NULL then BlockAt(pool, pool.index) else line.free
  }

  function TakenBooks(books: Books, c: nat): Books
    requires c < |books.lists|
    requires |books.lists[c]| > 0 ==> books.lists[c][|books.lists[c]| - 1] < |books.places|
  {
    if books.lists[c] == [] then Issue(books) else Reuse(books, c)
  }

  lemma TakeKeeps(pool: Pool, lines: seq<Line>, memory: Memory, books: Books, c: nat)
    requires PoolOk(pool, lines, memory, books) && c < |lines|
    requires lines[c].free == NULL ==> pool.index < pool.indexMax
    ensures ListOk(books, c) && (lines[c].free != NULL ==> lines[c].freeCount > 0)
    ensures PoolOk(Taken(pool, lines[c]), lines[c := Rest(lines[c], memory)], memory, TakenBooks(books, c))
    ensures Took(pool, books, Taken(pool, lines[c]), TakenBooks(books, c), c, TakenBlock(pool, lines[c]))
  {
    NothingToReuse(pool, lines, memory, books, c);
    if lines[c].free == NULL {
      IssueKeeps(pool, lines, memory, books, c);
      assert lines[c := lines[c]] == lines;
    } else {
      ReuseKeeps(pool, lines, memory, books, c);
    }
  }

  /** Putting a block in use on top of a free list keeps the pool, and the count does not wrap. */
  lemma ReturnKeeps(pool: Pool, lines: seq<Line>, memory: Memory, books: Books, c: nat, i: nat)
    requires PoolOk(pool, lines, memory, books) && c < |lines|
    requires i < |books.places| && books.places[i].Live?
    ensures lines[c].freeCount + 1 < 0x1_0000_0000
    ensures var p := BlockAt(pool, i);
            && PoolOk(pool, lines[c := Line(p, lines[c].freeCount + 1)], memory[p := lines[c].free],
                Return(books, c, i))
            && Gave(pool, books, Return(books, c, i), c, p)
  {
    var p := BlockAt(pool, i);
    assert ChainOk(pool, lines[c], memory, books.lists[c]);
    OneListAtMost(books.lists, c);
    assert BooksOk(Return(books, c, i)) by { ReturnKeepsBooks(books, c, i); }
    LiveLoses(pool, books.places, i, Free(c, |books.lists[c]|));
    forall d: nat | d < |lines|
      ensures i !in books.lists[d] && ChainOk(pool, lines[d], memory, books.lists[d])
      ensures d != c ==> ChainOk(pool, lines[d], memory[p := lines[c].free], books.lists[d])
    {
      assert ListOk(books, d);
      ChainElsewhere(pool, lines[d], memory, books.lists[d], i, lines[c].free);
    }
    ChainPush(pool, lines[c], memory, books.lists[c], i);
  }

  /**
   A block freed and the next one allocated from the same cache are one and the same, and
   everything is in use and free again as before.
   */
  lemma SameBlockAgain(pool: Pool, books: Books, books1: Books, pool2: Pool, books2: Books, c: nat, p: nat, q: nat)
    requires c < |books.lists| && Gave(pool, books, books1, c, p) && Took(pool, books1, pool2, books2, c, q)
    ensures q == p && pool2 == pool && LiveBlocks(pool2, books2.places) == LiveBlocks(pool, books.places)
    ensures forall d: nat | d < |books.lists| :: FreeBlocks(pool2, books2.lists[d]) == FreeBlocks(pool, books.lists[d])
  {
    var before, after := FreeBlocks(pool, books.lists[c]), FreeBlocks(pool, books2.lists[c]);
    assert before + [p] == after + [q];
    assert before == (before + [p])[..|before|] && after == (after + [q])[..|after|];
  }

  // ---------------------------------------------------------------- what the books promise

  lemma {:induction false} LiveCount(pool: Pool, places: seq<Place>)
    requires pool.allocMax > 0
    ensures |LiveBlocks(pool, places)| == CountLive(places)
  {
    if |places| > 0 {
      var n := |places| - 1;
      LiveCount(pool, places[..n]);
      if places[n].Live? {
        LiveGains(pool, places[..n], places, n);
      } else {
        assert LiveBlocks(pool, places) == LiveBlocks(pool, places[..n]);
      }
    } else {
      assert LiveBlocks(pool, places) == {};
    }
  }

  /** Conservation: issued blocks are those in use plus those on the free lists. */
  lemma Conservation(pool: Pool, lines: seq<Line>, memory: Memory, books: Books)
    requires PoolOk(pool, lines, memory, books)
    ensures pool.index == |LiveBlocks(pool, books.places)| + TotalFree(books.lists)
    ensures forall c: nat | c < |lines| :: lines[c].freeCount == |books.lists[c]|
  {
    LiveCount(pool, books.places);
    forall c: nat | c < |lines| ensures lines[c].freeCount == |books.lists[c]| {
      assert ChainOk(pool, lines[c], memory, books.lists[c]);
    }
  }

  /** Every issued block is in use or on a free list, never both, and at most once on the lists. */
  lemma OnePlace(pool: Pool, lines: seq<Line>, memory: Memory, books: Books, i: nat)
    requires PoolOk(pool, lines, memory, books) && i < pool.index
    ensures BlockAt(pool, i) in LiveBlocks(pool, books.places)
       <==> forall c: nat | c < |lines| :: BlockAt(pool, i) !in FreeBlocks(pool, books.lists[c])
    ensures forall c: nat, k: nat, d: nat, l: nat
              | c < |lines| && d < |lines| && k < |books.lists[c]| && l < |books.lists[d]|
              :: FreeBlocks(pool, books.lists[c])[k] == FreeBlocks(pool, books.lists[d])[l] ==> c == d && k == l
  {
    assert PlaceOk(books, i);
    if books.places[i].Free? {
      var at := books.places[i];
      assert FreeBlocks(pool, books.lists[at.cache])[at.depth] == BlockAt(pool, i);
      forall j: nat | j < pool.index && books.places[j].Live? ensures BlockAt(pool, j) != BlockAt(pool, i) {
        BlocksApart(pool, i, j);
      }
    }
    forall c: nat, k: nat | c < |lines| && k < |books.lists[c]| && books.places[i].Live?
      ensures FreeBlocks(pool, books.lists[c])[k] != BlockAt(pool, i)
    {
      assert ListOk(books, c);
      BlocksApart(pool, books.lists[c][k], i);
    }
    forall c: nat, k: nat, d: nat, l: nat
      | c < |lines| && d < |lines| && k < |books.lists[c]| && l < |books.lists[d]|
        && FreeBlocks(pool, books.lists[c])[k] == FreeBlocks(pool, books.lists[d])[l]
      ensures c == d && k == l
    {
      assert ListOk(books, c) && ListOk(books, d);
      if books.lists[c][k] != books.lists[d][l] { BlocksApart(pool, books.lists[c][k], books.lists[d][l]); }
    }
  }

  /** The pointer reached after following n links. */
  function Follow(memory: Memory, p: nat, n: nat): nat {
    if n == 0 then p else Word(memory, Follow(memory, p, n - 1))
  }

  lemma {:induction false} FollowDown(pool: Pool, line: Line, memory: Memory, list: seq<nat>, n: nat)
    requires ChainOk(pool, line, memory, list) && n <= |list|
    ensures Follow(memory, line.free, n) == Below(pool, list, |list| - n)
  {
    if n > 0 {
      FollowDown(pool, line, memory, list, n - 1);
      var k := |list| - n;
      assert Word(memory, BlockAt(pool, list[k])) == Below(pool, list, k);
    }
  }

  /**
   A free list has no cycle: its links lead through its blocks, top first, to NULL after as
   many steps as its count.
   */
  lemma {:induction false} ListEnds(pool: Pool, line: Line, memory: Memory, list: seq<nat>, n: nat)
    requires pool.buf > 0 && ChainOk(pool, line, memory, list) && n <= |list|
    ensures n < |list| ==> Follow(memory, line.free, n) == BlockAt(pool, list[|list| - 1 - n]) != NULL
    ensures n == |list| ==> Follow(memory, line.free, n) == NULL
  {
    FollowDown(pool, line, memory, list, n);
    if n < |list| {
      BlockNotNull(pool, list[|list| - 1 - n]);
    }
  }
}
