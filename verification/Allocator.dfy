/** The allocator: two pools carved from one slab, and a pair of free lists for every peer. */
module Allocator {
  import opened Basics
  import opened Pools

  const SMALL: nat := 256
  const LARGE: nat := 4096 + 128
  const SMALL_MAX: nat := 40000000
  const LARGE_MAX: nat := 1000000

  /** A product of a 32-bit unsigned and a positive 32-bit signed integer. */
  function Product32(a: uint32, b: nat): uint32 {
    a * b % 0x1_0000_0000
  }

  lemma SmallBelow(small: Pool, limit: nat, i: nat)
    requires i < small.index && small.buf + small.allocMax * small.index <= limit
    ensures BlockAt(small, i) + small.allocMax <= limit
  {
    BlockOrder(small, i, small.index);
  }

  lemma SizesKnown(small: Pool, smallPlaces: seq<Place>, large: Pool, largePlaces: seq<Place>, p: nat)
    requires |smallPlaces| == small.index && small.buf + small.allocMax * small.index <= large.buf
    ensures p in LiveBlocks(small, smallPlaces) ==> p + small.allocMax <= large.buf
    ensures p in LiveBlocks(large, largePlaces) ==> p >= large.buf
  {
    if p in LiveBlocks(small, smallPlaces) {
      var i: nat :| i < |smallPlaces| && smallPlaces[i].Live? && BlockAt(small, i) == p;
      SmallBelow(small, large.buf, i);
    }
  }

  /** A block of either size that was just taken is not NULL, and no block of the other size. */
  lemma TakenIsNew(small: Pool, smallPlaces: seq<Place>, large: Pool, largePlaces: seq<Place>, p: nat)
    requires |smallPlaces| == small.index && small.buf + small.allocMax * small.index <= large.buf
    requires small.buf > 0 && large.buf > 0 && small.allocMax > 0
    requires p in LiveBlocks(small, smallPlaces) || p in LiveBlocks(large, largePlaces)
    ensures p != NULL && !(p in LiveBlocks(small, smallPlaces) && p in LiveBlocks(large, largePlaces))
  {
    SizesKnown(small, smallPlaces, large, largePlaces, p);
  }

  /** Writing inside a block in use changes the first word of no free block of the same pool. */
  lemma OwnWordsOnly(pool: Pool, lines: seq<Line>, memory: Memory, books: Books, p: nat, contents: Memory)
    requires PoolOk(pool, lines, memory, books) && p in LiveBlocks(pool, books.places)
    requires forall a <- contents :: p < a + WORD && a < p + pool.allocMax
    ensures PoolOk(pool, lines, memory + contents, books)
  {
    var i := IndexOf(pool, books, p);
    forall j: nat | j < pool.index && books.places[j].Free? ensures BlockAt(pool, j) !in contents {
      BlocksApart(pool, i, j);
    }
    Untouched(pool, lines, memory, books, memory + contents);
  }

  /** Writing below the pool changes nothing in it. */
  lemma WritesBelow(pool: Pool, lines: seq<Line>, memory: Memory, books: Books, contents: Memory)
    requires PoolOk(pool, lines, memory, books) && forall a <- contents :: a < pool.buf
    ensures PoolOk(pool, lines, memory + contents, books)
  {
    Untouched(pool, lines, memory, books, memory + contents);
  }

  /** Writing above the blocks issued so far changes nothing for them. */
  lemma WritesAbove(pool: Pool, lines: seq<Line>, memory: Memory, books: Books, contents: Memory, limit: nat)
    requires PoolOk(pool, lines, memory, books) && pool.buf + pool.allocMax * pool.index <= limit
    requires forall a <- contents :: limit < a + WORD
    ensures PoolOk(pool, lines, memory + contents, books)
  {
    forall j: nat | j < pool.index ensures BlockAt(pool, j) !in contents {
      SmallBelow(pool, limit, j);
    }
    Untouched(pool, lines, memory, books, memory + contents);
  }

  lemma OneWordBelow(pool: Pool, lines: seq<Line>, memory: Memory, books: Books, p: nat, w: nat)
    requires PoolOk(pool, lines, memory, books) && p < pool.buf
    ensures PoolOk(pool, lines, memory[p := w], books)
  {
    WritesBelow(pool, lines, memory, books, map[p := w]);
    assert memory + map[p := w] == memory[p := w];
  }

  lemma OneWordAbove(pool: Pool, lines: seq<Line>, memory: Memory, books: Books, p: nat, w: nat, limit: nat)
    requires PoolOk(pool, lines, memory, books) && pool.buf + pool.allocMax * pool.index <= limit <= p
    ensures PoolOk(pool, lines, memory[p := w], books)
  {
    WritesAbove(pool, lines, memory, books, map[p := w], limit);
    assert memory + map[p := w] == memory[p := w];
  }

  /** Takes the block on top of a free list, if there is one. */
  method AllocCacheLine(line: Line, memory: Memory) returns (p: nat, rest: Line)
    requires line.free != NULL ==> line.freeCount > 0
    ensures p == line.free && rest == Rest(line, memory)
  {
    p, rest := NULL, line;
    if line.free != NULL {
      p := line.free;
      rest := Line(Word(memory, line.free), line.freeCount - 1);
    }
  }

  /** One block from a cache's list or, when that is empty, from the pool. */
  method TakeFrom(pool: Pool, lines: seq<Line>, memory: Memory, c: nat, ghost books: Books)
    returns (ok: bool, p: nat, pool': Pool, lines': seq<Line>, ghost books': Books)
    requires PoolOk(pool, lines, memory, books) && c < |lines|
    ensures ok <==> books.lists[c] != [] || pool.index < pool.indexMax
    ensures ok ==> PoolOk(pool', lines', memory, books') && Took(pool, books, pool', books', c, p)
    ensures ok ==> p == TakenBlock(pool, lines[c])
    ensures !ok ==> lines' == lines && lines[c].free == NULL && pool'.index >= pool.indexMax
    ensures |lines'| == |lines| && pool' == pool.(index := pool'.index)
  {
    NothingToReuse(pool, lines, memory, books, c);
    var rest;
    p, rest := AllocCacheLine(lines[c], memory);
    lines', pool', ok, books' := lines[c := rest], pool, true, books;
    if p == NULL {
      ok := pool.index < pool.indexMax;
      p := pool.buf + pool.allocMax * pool.index;
      pool' := pool.(index := pool.index + 1);
    }
    if ok {
      TakeKeeps(pool, lines, memory, books, c);
      books' := TakenBooks(books, c);
      assert pool' == Taken(pool, lines[c]) && p == TakenBlock(pool, lines[c]);
    }
  }

  /** Puts a block on top of a free list: its first word is made to point to the block below. */
  method DallocCacheLine(line: Line, memory: Memory, p: nat) returns (more: Line, memory': Memory)
    requires line.freeCount + 1 < 0x1_0000_0000
    ensures more == Line(p, line.freeCount + 1) && memory' == memory[p := line.free]
  {
    if line.free != NULL {
      memory' := memory[p := line.free];
      more := Line(p, line.freeCount);
    } else {
      more := Line(p, line.freeCount);
      memory' := memory[p := NULL];
    }
    more := more.(freeCount := more.freeCount + 1);
  }

  /** A block in use goes to a cache's list. */
  method GiveTo(pool: Pool, lines: seq<Line>, memory: Memory, c: nat, p: nat, ghost books: Books)
    returns (lines': seq<Line>, memory': Memory, ghost books': Books)
    requires PoolOk(pool, lines, memory, books) && c < |lines| && p in LiveBlocks(pool, books.places)
    ensures PoolOk(pool, lines', memory', books') && Gave(pool, books, books', c, p)
    ensures |lines'| == |lines| && memory' == memory[p := lines[c].free]
  {
    ghost var i := IndexOf(pool, books, p);
    ReturnKeeps(pool, lines, memory, books, c, i);
    var line;
    line, memory' := DallocCacheLine(lines[c], memory, p);
    lines' := lines[c := line];
    books' := Return(books, c, i);
  }

  class Allocator {
    var memory: Memory
    var small: Pool
    var large: Pool
    var smallLines: seq<Line>
    var largeLines: seq<Line>
    ghost var smallBooks: Books
    ghost var largeBooks: Books

    /** Do the small blocks issued so far end before the large pool starts? */
    predicate Apart()
      reads this
    {
      small.buf + small.allocMax * small.index <= large.buf
    }

    ghost predicate Valid()
      reads this
    {
      && small.allocMax == SMALL && large.allocMax == LARGE
      && |smallLines| == |largeLines|
      && PoolOk(small, smallLines, memory, smallBooks)
      && PoolOk(large, largeLines, memory, largeBooks)
      && Apart()
    }

    function Caches(): nat
      reads this
    {
      |smallLines|
    }

    /** Will a block of this size, if there is one, keep the small pool below the large one? */
    predicate SafeFor(c: nat, sz: nat)
      requires c < |smallLines|
      reads this
    {
      sz > SMALL || smallLines[c].free != NULL || small.buf + small.allocMax * (small.index + 1) <= large.buf
    }

    /** Is there a block for this size: on the cache's list of the smallest size that is enough, or in its pool? */
    predicate HasBlock(c: nat, sz: nat)
      requires c < |smallLines| && c < |largeLines|
      reads this
    {
      if sz > SMALL then sz <= LARGE && (largeLines[c].free != NULL || large.index < large.indexMax)
      else smallLines[c].free != NULL || small.index < small.indexMax
    }

    /** The block that comes next: the top of the cache's list for that size, or the next one of the pool. */
    function NextBlock(c: nat, sz: nat): nat
      requires c < |smallLines| && c < |largeLines|
      reads this
    {
      if sz > SMALL then TakenBlock(large, largeLines[c]) else TakenBlock(small, smallLines[c])
    }

    /** The blocks in use. */
    ghost function InUse(): set<nat>
      reads this
    {
      LiveBlocks(small, smallBooks.places) + LiveBlocks(large, largeBooks.places)
    }

    /** The slab is carved at a 32-bit product; the source asserts that the large pool starts after the small one. */
    constructor (slab: nat, smallMax: nat, largeMax: nat, peers: nat)
      requires slab > 0 && smallMax < 0x8000_0000 && largeMax < 0x8000_0000
      requires Product32(SMALL, smallMax) > 0
      ensures Valid() && Caches() == peers
      ensures small == Pools.Pool(slab, 0, smallMax, SMALL)
      ensures large == Pools.Pool(slab + Product32(SMALL, smallMax), 0, largeMax, LARGE)
      ensures InUse() == {}
    {
      memory := map[];
      small := Pools.Pool(slab, 0, smallMax, SMALL);
      large := Pools.Pool(slab + Product32(SMALL, smallMax), 0, largeMax, LARGE);
      smallLines := seq(peers, _ => Line(NULL, 0));
      largeLines := seq(peers, _ => Line(NULL, 0));
      smallBooks := Books([], seq(peers, _ => []));
      largeBooks := Books([], seq(peers, _ => []));
      NothingFree(seq(peers, _ => []));
    }

    method AllocSmall(c: nat) returns (ok: bool, p: nat)
      requires PoolOk(small, smallLines, memory, smallBooks) && c < |smallLines|
      modifies `small, `smallLines, `smallBooks
      ensures ok <==> old(smallBooks).lists[c] != [] || old(small.index) < small.indexMax
      ensures ok ==> PoolOk(small, smallLines, memory, smallBooks)
      ensures ok ==> Took(old(small), old(smallBooks), small, smallBooks, c, p)
      ensures ok ==> p == TakenBlock(old(small), old(smallLines[c]))
      ensures !ok ==> smallLines == old(smallLines) && smallLines[c].free == NULL && small.index >= small.indexMax
      ensures |smallLines| == old(|smallLines|) && small == old(small).(index := small.index)
    {
      ok, p, small, smallLines, smallBooks := TakeFrom(small, smallLines, memory, c, smallBooks);
    }

    method AllocLarge(c: nat) returns (ok: bool, p: nat)
      requires PoolOk(large, largeLines, memory, largeBooks) && c < |largeLines|
      modifies `large, `largeLines, `largeBooks
      ensures ok <==> old(largeBooks).lists[c] != [] || old(large.index) < large.indexMax
      ensures ok ==> PoolOk(large, largeLines, memory, largeBooks)
      ensures ok ==> Took(old(large), old(largeBooks), large, largeBooks, c, p)
      ensures ok ==> p == TakenBlock(old(large), old(largeLines[c]))
      ensures !ok ==> largeLines == old(largeLines) && largeLines[c].free == NULL && large.index >= large.indexMax
      ensures |largeLines| == old(|largeLines|) && large == old(large).(index := large.index)
    {
      ok, p, large, largeLines, largeBooks := TakeFrom(large, largeLines, memory, c, largeBooks);
    }

    /** A block of the smallest size that is enough. The result is false where an assertion of the source fails. */
    method Alloc(c: nat, sz: nat) returns (ok: bool, p: nat)
      requires Valid() && c < Caches()
      modifies this
      ensures ok <==> if sz > SMALL then sz <= LARGE
              && (old(largeBooks).lists[c] != [] || old(large.index) < large.indexMax)
                      else old(smallBooks).lists[c] != [] || old(small.index) < small.indexMax
      ensures (ok <==> old(HasBlock(c, sz))) && Caches() == old(Caches()) && |largeLines| == old(|largeLines|)
      ensures !ok ==> !HasBlock(c, sz)
      ensures ok ==> OnlyCache(c, old(smallBooks), smallBooks) && OnlyCache(c, old(largeBooks), largeBooks)
      ensures ok && sz > SMALL ==> Took(old(large), old(largeBooks), large, largeBooks, c, p) && Valid()
      ensures ok && sz <= SMALL ==> Took(old(small), old(smallBooks), small, smallBooks, c, p)
      ensures ok ==> p == old(NextBlock(c, sz))
      ensures ok && Apart() ==> Valid()
      ensures ok ==> (Apart() <==> old(SafeFor(c, sz)))
      ensures sz > SMALL ==> small == old(small) && smallBooks == old(smallBooks)
      ensures sz <= SMALL ==> large == old(large) && largeBooks == old(largeBooks)
      ensures ok && Apart() ==> p != NULL && p !in old(InUse()) && InUse() == old(InUse()) + {p}
      ensures large.buf == old(large.buf) && memory == old(memory)
    {
      if LARGE < sz {
        return false, NULL;
      }
      NothingToReuse(small, smallLines, memory, smallBooks, c);
      NothingToReuse(large, largeLines, memory, largeBooks, c);
      if SMALL < sz {
        ok, p := AllocLarge(c);
      } else {
        ok, p := AllocSmall(c);
      }
      if ok && Apart() {
        TakenIsNew(small, smallBooks.places, large, largeBooks.places, p);
      }
    }

    function IsLarge(p: nat): bool
      reads this
    {
      p >= large.buf
    }

    /** A block in use goes to the list of its own size, whichever it was allocated as. */
    method Dalloc(c: nat, p: nat)
      requires Valid() && c < Caches() && p in InUse()
      modifies `memory, `smallLines, `largeLines, `smallBooks, `largeBooks
      ensures Valid() && Caches() == old(Caches())
      ensures InUse() == old(InUse()) - {p}
      ensures OnlyCache(c, old(smallBooks), smallBooks) && OnlyCache(c, old(largeBooks), largeBooks)
      ensures p in LiveBlocks(old(small), old(smallBooks).places) <==> !IsLarge(p)
      ensures IsLarge(p) ==> Gave(large, old(largeBooks), largeBooks, c, p) && smallBooks == old(smallBooks)
      ensures !IsLarge(p) ==> Gave(small, old(smallBooks), smallBooks, c, p) && largeBooks == old(largeBooks)
    {
      SizesKnown(small, smallBooks.places, large, largeBooks.places, p);
      if IsLarge(p) {
        OneWordAbove(small, smallLines, memory, smallBooks, p, largeLines[c].free, large.buf);
        largeLines, memory, largeBooks := GiveTo(large, largeLines, memory, c, p, largeBooks);
      } else {
        OneWordBelow(large, largeLines, memory, largeBooks, p, smallLines[c].free);
        smallLines, memory, smallBooks := GiveTo(small, smallLines, memory, c, p, smallBooks);
      }
    }

    /** The owner of a block in use writes it: every word of 8 octets with one in the block may get any value. */
    method Write(p: nat, contents: Memory)
      requires Valid() && p in InUse()
      requires forall a <- contents :: p < a + 8 && a < p + (if IsLarge(p) then LARGE else SMALL)
      modifies `memory
      ensures Valid() && memory == old(memory) + contents
    {
      SizesKnown(small, smallBooks.places, large, largeBooks.places, p);
      if IsLarge(p) {
        OwnWordsOnly(large, largeLines, memory, largeBooks, p, contents);
        WritesAbove(small, smallLines, memory, smallBooks, contents, large.buf);
      } else {
        OwnWordsOnly(small, smallLines, memory, smallBooks, p, contents);
        WritesBelow(large, largeLines, memory, largeBooks, contents);
      }
      memory := memory + contents;
    }
  }

  ghost function IndexOf(pool: Pool, books: Books, p: nat): (i: nat)
    requires p in LiveBlocks(pool, books.places)
    ensures i < |books.places| && books.places[i].Live? && BlockAt(pool, i) == p
  {
    var i: nat :| i < |books.places| && books.places[i].Live? && p == BlockAt(pool, i);
    i
  }

  // ---------------------------------------------------------------- what the carve allows

  /** Have two stretches of memory an octet in common? */
  predicate Overlap(p: nat, m: nat, q: nat, n: nat) {
    p < q + n && q < p + m
  }

  lemma OnePoolApart(pool: Pool, places: seq<Place>, p: nat, q: nat)
    requires p in LiveBlocks(pool, places) && q in LiveBlocks(pool, places) && p != q
    ensures !Overlap(p, pool.allocMax, q, pool.allocMax)
  {
    var i: nat :| i < |places| && places[i].Live? && BlockAt(pool, i) == p;
    var j: nat :| j < |places| && places[j].Live? && BlockAt(pool, j) == q;
    BlocksApart(pool, i, j);
  }

  /**
   Blocks in use never overlap, whatever their sizes, while the small blocks issued end
   before the large pool starts.
   */
  lemma LiveApart(small: Pool, smallPlaces: seq<Place>, large: Pool, largePlaces: seq<Place>, p: nat, q: nat)
    requires small.allocMax > 0 && large.allocMax > 0 && p != q
    requires |smallPlaces| == small.index && small.buf + small.allocMax * small.index <= large.buf
    ensures p in LiveBlocks(small, smallPlaces) && q in LiveBlocks(small, smallPlaces) ==>
            !Overlap(p, small.allocMax, q, small.allocMax)
    ensures p in LiveBlocks(small, smallPlaces) && q in LiveBlocks(large, largePlaces) ==>
            !Overlap(p, small.allocMax, q, large.allocMax)
    ensures p in LiveBlocks(large, largePlaces) && q in LiveBlocks(large, largePlaces) ==>
            !Overlap(p, large.allocMax, q, large.allocMax)
  {
    SizesKnown(small, smallPlaces, large, largePlaces, p);
    SizesKnown(small, smallPlaces, large, largePlaces, q);
    if p in LiveBlocks(small, smallPlaces) && q in LiveBlocks(small, smallPlaces) {
      OnePoolApart(small, smallPlaces, p, q);
    }
    if p in LiveBlocks(large, largePlaces) && q in LiveBlocks(large, largePlaces) {
      OnePoolApart(large, largePlaces, p, q);
    }
  }

  /** Does a block of one pool lie on top of some block of the other? */
  ghost predicate Hits(small: Pool, i: nat, large: Pool) {
    exists j: nat :: j < large.indexMax && Overlap(BlockAt(small, i), small.allocMax, BlockAt(large, j), large.allocMax)
  }

  /**
   The pools as shipped. The 32-bit product puts the large pool 1650065408 octets into
   the slab, so a small block is taken for a large one exactly from index 6445568 on,
   and up to index 22945568 it also lies on top of the large pool.
   */
  lemma ShippedPools(slab: nat, i: nat)
    requires i < SMALL_MAX
    ensures var small, large := Pool(slab, i, SMALL_MAX, SMALL), slab + Product32(SMALL, SMALL_MAX);
            && (BlockAt(small, i) >= large <==> i >= 6445568)
            && (Hits(small, i, Pool(large, 0, LARGE_MAX, LARGE)) <==> 6445568 <= i < 22945568)
  {
    var start := slab + Product32(SMALL, SMALL_MAX);
    var small, large := Pool(slab, i, SMALL_MAX, SMALL), Pool(start, 0, LARGE_MAX, LARGE);
    assert Product32(SMALL, SMALL_MAX) == 1650065408;
    assert BlockAt(small, i) == slab + 256 * i;
    assert forall j: nat :: BlockAt(large, j) == start + 4224 * j;
    if 6445568 <= i < 22945568 {
      var j: nat := (SMALL * i - 1650065408) / LARGE;
      assert j < LARGE_MAX && Overlap(BlockAt(small, i), SMALL, BlockAt(large, j), LARGE);
      assert Hits(small, i, large);
    } else {
      forall j: nat | j < LARGE_MAX ensures !Overlap(BlockAt(small, i), SMALL, BlockAt(large, j), LARGE) {
        assert BlockAt(large, j) == start + 4224 * j;
      }
    }
  }

  /**
   Every small block issued is told apart from the large ones exactly while all of them
   end before the large pool starts. A product that does not wrap makes sure of it; as
   shipped it holds exactly up to an index of 6445568.
   */
  lemma ApartExactly(slab: nat, smallMax: nat, index: nat)
    requires index <= smallMax < 0x8000_0000
    ensures var small, large := Pool(slab, index, smallMax, SMALL), slab + Product32(SMALL, smallMax);
            && (slab + SMALL * index <= large <==> forall i: nat | i < index :: BlockAt(small, i) < large)
            && (SMALL * smallMax < 0x1_0000_0000 ==> slab + SMALL * index <= large)
            && (smallMax == SMALL_MAX ==> (slab + SMALL * index <= large <==> index <= 6445568))
  {
    var small, large := Pool(slab, index, smallMax, SMALL), slab + Product32(SMALL, smallMax);
    if index > 0 && !(slab + SMALL * index <= large) {
      var q := SMALL * smallMax / 0x1_0000_0000;
      assert Product32(SMALL, smallMax) == SMALL * (smallMax - 0x100_0000 * q);
      assert BlockAt(small, index - 1) >= large;
    }
    forall i: nat | i < index && slab + SMALL * index <= large ensures BlockAt(small, i) < large {
      SmallBelow(small, large, i);
    }
    assert Product32(SMALL, SMALL_MAX) == 1650065408;
  }

  /** The block that comes next is not NULL. */
  lemma NextNotNull(heap: Allocator, c: nat, sz: nat)
    requires heap.Valid() && c < heap.Caches()
    ensures heap.NextBlock(c, sz) != NULL
  {
    NothingToReuse(heap.small, heap.smallLines, heap.memory, heap.smallBooks, c);
  }
}
