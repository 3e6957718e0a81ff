/** Cutting a stream of messages into one chunk per peer, and parsing the chunks. */
module Splitter {
  import opened Basics
  import opened UpdateMessage

  /** One chunk: where it starts and how many octets it has. */
  datatype Buf = Buf(base: nat, length: nat) {
    function End(): nat { base + length }
  }

  /** Sixteen octets of 0xff: a marker, or something that looks like one. */
  predicate RunAt(data: seq<byte>, o: int) {
    0 <= o && o + 16 <= |data| && forall k | o <= k < o + 16 :: data[k] == 0xff
  }

  /** The greatest offset above 0 of a run that ends at or before the target. */
  ghost predicate IsCut(data: seq<byte>, target: nat, o: nat) {
    && 1 <= o && o + 15 <= target && RunAt(data, o)
    && forall later | o < later && later + 15 <= target :: !RunAt(data, later)
  }

  ghost predicate HasCut(data: seq<byte>, target: nat) {
    exists o: nat :: 1 <= o && o + 15 <= target && RunAt(data, o)
  }

  /** Where the search for the end of chunk p starts. */
  function Target(p: nat, n: nat, length: nat): nat
    requires 0 < n
  {
    (p + 1) * length / n
  }

  lemma Cancel(x: int, y: int, n: nat)
    requires n * x < n * y + n
    ensures x <= y
  {
    if y + 1 <= x { Scale(y + 1, x, n); }
  }

  lemma DivMonotone(a: nat, b: nat, n: nat)
    requires 0 < n && a <= b
    ensures a / n <= b / n
  {
    Cancel(a / n, b / n, n);
  }

  /** The target is the whole part of (p + 1) / n of the length. */
  lemma TargetExactly(p: nat, n: nat, length: nat)
    requires p < n
    ensures n * Target(p, n, length) <= (p + 1) * length < n * (Target(p, n, length) + 1)
  {
    var x := (p + 1) * length;
    assert x == n * (x / n) + x % n;
  }

  lemma DivExact(length: nat, n: nat)
    requires 0 < n
    ensures n * length / n == length
  {
    var q := n * length / n;
    Cancel(q, length, n);
    Cancel(length, q, n);
  }

  lemma TargetMonotone(p: nat, q: nat, n: nat, length: nat)
    requires p <= q < n
    ensures Target(p, n, length) <= Target(q, n, length) <= length
    ensures q == n - 1 ==> Target(q, n, length) == length
  {
    Scale(p + 1, q + 1, length);
    DivMonotone((p + 1) * length, (q + 1) * length, n);
    Scale(q + 1, n, length);
    DivMonotone((q + 1) * length, n * length, n);
    DivExact(length, n);
  }

  lemma CutsMonotone(data: seq<byte>, t: nat, u: nat, o: nat)
    requires t <= u && IsCut(data, t, o)
    ensures HasCut(data, u)
    ensures forall o' | IsCut(data, u, o') :: o <= o'
  {
  }

  /** Steps back from the target, counting 0xff octets, until a whole run has been seen. Offset 0 is never looked at. */
  method FindCut(data: seq<byte>, target: nat) returns (found: bool, offset: nat)
    requires target < |data|
    ensures found <==> HasCut(data, target)
    ensures found ==> IsCut(data, target, offset)
  {
    offset := target;
    var markCount := 0;
    while offset > 0
      invariant offset <= target && 0 <= markCount < 16 && offset + markCount <= target
      invariant forall k | offset < k <= offset + markCount :: data[k] == 0xff
      invariant offset + markCount < target ==> data[offset + markCount + 1] != 0xff
      invariant forall o | offset < o && o + 15 <= target :: !RunAt(data, o)
    {
      if data[offset] != 0xff {
        assert !RunAt(data, offset);
        markCount := 0;
      } else {
        markCount := markCount + 1;
      }
      if markCount == 16 {
        assert RunAt(data, offset);
        return true, offset;
      }
      offset := offset - 1;
    }
    found := false;
  }

  /** Chunk p runs from the previous cut (or the start) up to the greatest run at or before its own target. */
  ghost predicate ChunkAt(data: seq<byte>, length: nat, bufs: seq<Buf>, p: nat)
    requires p < |bufs|
  {
    && bufs[p].base == (if p == 0 then 0 else bufs[p - 1].End())
    && IsCut(data, Target(p, |bufs|, length), bufs[p].End())
  }

  ghost predicate IsSplit(data: seq<byte>, length: nat, bufs: seq<Buf>) {
    forall p: nat | p < |bufs| :: ChunkAt(data, length, bufs, p)
  }

  /** The lower limit of every search stays 0; the result is false where an assertion of the source fails. */
  method SplitBuf(bufs: array<Buf>, data: seq<byte>, length: nat) returns (ok: bool)
    requires length < |data|
    requires bufs.Length * length < 0x8000_0000_0000_0000
    modifies bufs
    ensures ok ==> IsSplit(data, length, bufs[..])
    ensures bufs.Length == 0 ==> ok
    ensures bufs.Length > 0 ==> (ok <==> HasCut(data, length / bufs.Length))
  {
    var n := bufs.Length;
    var offset := 0;
    ok := true;
    for p := 0 to n
      invariant ok
      invariant offset == (if p == 0 then 0 else bufs[p - 1].End())
      invariant forall q: nat | q < p :: ChunkAt(data, length, bufs[..], q)
      invariant p > 0 ==> HasCut(data, length / n)
    {
      var base := offset;
      TargetMonotone(p, p, n, length);
      TargetMonotone(0, p, n, length);
      if p > 0 {
        TargetMonotone(p - 1, p, n, length);
        assert ChunkAt(data, length, bufs[..], p - 1);
        CutsMonotone(data, Target(p - 1, n, length), Target(p, n, length), offset);
      }
      ok, offset := FindCut(data, (p + 1) * length / n);
      if !ok {
        assert p == 0;
        return;
      }
      ghost var was := bufs[..];
      bufs[p] := Buf(base, offset - base);
      forall q: nat | q <= p ensures ChunkAt(data, length, bufs[..], q) {
        assert q < p ==> ChunkAt(data, length, was, q);
      }
    }
  }

  // ---------------------------------------------------------------- parsing a chunk

  /** How a walk over messages ends: normally, in a failed assertion, or by reading past the data or never. */
  datatype Visit = Returned(seen: seq<nat>) | Aborted | Wild

  /** The offsets of the messages met from `at` on, each found by the length of the one before; 0 means no maximum. */
  function Walk(data: seq<byte>, at: nat, limit: nat, count: nat, msgMax: nat): Visit
    decreases if msgMax == 0 then 0 else msgMax - count, limit - at
  {
    if at >= limit || (msgMax != 0 && count >= msgMax) then Returned([])
    else if at + HEADER > |data| then Wild
    else if !RunAt(data, at) || data[at + 18] != UPDATE then Aborted
    else
      var length := Word16(data, at + 16);
      if length == 0 && msgMax == 0 then Wild
      else match Walk(data, at + length, limit, count + 1, msgMax)
        case Returned(rest) => Returned([at] + rest)
        case bad => bad
  }

  ghost predicate Readable(data: seq<byte>, seen: seq<nat>) {
    forall i: nat | i < |seen| :: seen[i] + HEADER <= |data|
  }

  /** Of the messages met, those that are handed on: longer than an empty UPDATE, and not among the first `spare`. */
  ghost function Handed(data: seq<byte>, seen: seq<nat>, spare: nat): seq<nat>
    requires Readable(data, seen)
  {
    if |seen| == 0 then []
    else
      var before := Handed(data, seen[..|seen| - 1], spare);
      var at := seen[|seen| - 1];
      if Word16(data, at + 16) > 23 && spare <= |seen| - 1 then before + [at] else before
  }

  /** Is `all` what one gets by meeting `seen` first and then `rest`? */
  ghost predicate Continues(all: Visit, seen: seq<nat>, rest: Visit) {
    if rest.Returned? then all == Returned(seen + rest.seen) else all == rest
  }

  lemma WalkStep(data: seq<byte>, at: nat, limit: nat, count: nat, msgMax: nat, all: Visit, seen: seq<nat>)
    requires at < limit && (msgMax == 0 || count < msgMax) && at + HEADER <= |data|
    requires RunAt(data, at) && data[at + 18] == UPDATE && (msgMax == 0 ==> Word16(data, at + 16) != 0)
    requires Continues(all, seen, Walk(data, at, limit, count, msgMax))
    ensures Continues(all, seen + [at], Walk(data, at + Word16(data, at + 16), limit, count + 1, msgMax))
  {
    var next := Walk(data, at + Word16(data, at + 16), limit, count + 1, msgMax);
    if next.Returned? {
      assert seen + ([at] + next.seen) == (seen + [at]) + next.seen;
    }
  }

  lemma HandedStep(data: seq<byte>, seen: seq<nat>, at: nat, spare: nat)
    requires Readable(data, seen) && at + HEADER <= |data|
    ensures Readable(data, seen + [at])
    ensures Handed(data, seen + [at], spare)
      == Handed(data, seen, spare) + if Word16(data, at + 16) > 23 && spare <= |seen| then [at] else []
  {
    assert (seen + [at])[..|seen|] == seen;
  }

  method BufParsePeer(data: seq<byte>, chunk: Buf, msgMax: nat, spare: nat)
    returns (end: Visit, parsed: seq<nat>, msgCount: nat)
    ensures end == Walk(data, chunk.base, chunk.End(), 0, msgMax)
    ensures end.Returned? ==> Readable(data, end.seen)
    ensures end.Returned? ==> msgCount == |end.seen| && parsed == Handed(data, end.seen, spare)
  {
    var ptr: nat, limit := chunk.base, chunk.End();
    var seen: seq<nat> := [];
    parsed, msgCount := [], 0;
    ghost var all := Walk(data, ptr, limit, 0, msgMax);
    while ptr < limit && (msgMax == 0 || msgCount < msgMax)
      invariant msgCount == |seen|
      invariant Readable(data, seen)
      invariant parsed == Handed(data, seen, spare)
      invariant Continues(all, seen, Walk(data, ptr, limit, msgCount, msgMax))
      decreases if msgMax == 0 then 0 else msgMax - msgCount, limit - ptr
    {
      if ptr + HEADER > |data| {
        return Wild, parsed, msgCount;
      }
      if !RunAt(data, ptr) || data[ptr + 18] != UPDATE {
        return Aborted, parsed, msgCount;
      }
      var msgLength: nat := Word16(data, ptr + 16);
      if msgLength == 0 && msgMax == 0 {
        return Wild, parsed, msgCount;
      }
      WalkStep(data, ptr, limit, msgCount, msgMax, all, seen);
      HandedStep(data, seen, ptr, spare);
      if msgLength > 23 && spare <= msgCount {
        parsed := parsed + [ptr];
      }
      seen := seen + [ptr];
      ptr := ptr + msgLength;
      msgCount := msgCount + 1;
    }
    end := Returned(seen);
    assert seen + [] == seen;
  }

  // ---------------------------------------------------------------- parsing all chunks

  /** What parsing the first p chunks in order meets. */
  ghost function Chunks(data: seq<byte>, bufs: seq<Buf>, p: nat): Visit
    requires p <= |bufs|
  {
    if p == 0 then Returned([])
    else
      match Chunks(data, bufs, p - 1)
      case Returned(seen) =>
        (match Walk(data, bufs[p - 1].base, bufs[p - 1].End(), 0, 0)
         case Returned(more) => Returned(seen + more)
         case bad => bad)
      case bad => bad
  }

  /** Messages that follow one another from 0 to the length; `starts` also holds the length. */
  ghost predicate Framed(data: seq<byte>, starts: seq<nat>, length: nat) {
    && |starts| >= 2 && starts[0] == 0 && starts[|starts| - 1] == length < |data|
    && forall i: nat | i + 1 < |starts| ::
         starts[i] < starts[i + 1] && MessageAt(data, starts[i], starts[i + 1] - starts[i])
  }

  lemma {:induction false} StartsAscend(data: seq<byte>, starts: seq<nat>, length: nat, i: nat, j: nat)
    requires Framed(data, starts, length) && i < j < |starts|
    ensures starts[i] < starts[j]
    decreases j
  {
    if i < j - 1 { StartsAscend(data, starts, length, i, j - 1); }
    assert starts[j - 1] < starts[j - 1 + 1];
  }

  lemma MessageStep(data: seq<byte>, starts: seq<nat>, length: nat, i: nat)
    requires Framed(data, starts, length) && i + 1 < |starts|
    ensures starts[i] + HEADER <= starts[i + 1] <= |data|
    ensures RunAt(data, starts[i]) && data[starts[i] + 18] == UPDATE
    ensures Word16(data, starts[i] + 16) == starts[i + 1] - starts[i]
  {
    var at := starts[i];
    assert MessageAt(data, at, starts[i + 1] - starts[i]);
    forall k | at <= k < at + 16 ensures data[k] == 0xff {
      assert data[k] == data[at..at + 16][k - at] == MARKER[k - at];
    }
  }

  /** The first message start from i on that is not below the limit. */
  ghost function Reach(starts: seq<nat>, i: nat, limit: nat): (j: nat)
    requires i < |starts| && limit <= starts[|starts| - 1]
    ensures i <= j < |starts| && starts[j] >= limit
    ensures forall k | i <= k < j :: starts[k] < limit
    decreases |starts| - i
  {
    if starts[i] >= limit then i else Reach(starts, i + 1, limit)
  }

  lemma WalkPast(data: seq<byte>, at: nat, next: nat, limit: nat, count: nat, msgMax: nat, rest: seq<nat>)
    requires at < limit && (msgMax == 0 || count < msgMax) && at + HEADER <= next <= |data|
    requires RunAt(data, at) && data[at + 18] == UPDATE && Word16(data, at + 16) == next - at
    requires Walk(data, next, limit, count + 1, msgMax) == Returned(rest)
    ensures Walk(data, at, limit, count, msgMax) == Returned([at] + rest)
  {
  }

  /** Where a walk from the i-th message stops that the limit would stop at the j-th. */
  function Stop(i: nat, j: nat, count: nat, msgMax: nat): (k: nat)
    requires i <= j && (msgMax == 0 || count <= msgMax)
    ensures i <= k <= j
    ensures msgMax != 0 ==> k - i <= msgMax - count && (k < j ==> k - i == msgMax - count)
    ensures msgMax == 0 ==> k == j
  {
    if msgMax != 0 && msgMax - count < j - i then i + (msgMax - count) else j
  }

  /**
   A framed stream is walked message by message, to the first message that starts at or
   behind the limit, or until the maximum is reached.
   */
  lemma {:induction false} WalkFramed(data: seq<byte>, starts: seq<nat>, length: nat, i: nat, limit: nat, count: nat,
      msgMax: nat)
    requires Framed(data, starts, length) && i < |starts| && limit <= length && (msgMax == 0 || count <= msgMax)
    ensures Walk(data, starts[i], limit, count, msgMax) ==
            Returned(starts[i..Stop(i, Reach(starts, i, limit), count, msgMax)])
    decreases |starts| - i
  {
    if starts[i] < limit && (msgMax == 0 || count < msgMax) {
      MessageStep(data, starts, length, i);
      WalkFramed(data, starts, length, i + 1, limit, count + 1, msgMax);
      var k := Stop(i, Reach(starts, i, limit), count, msgMax);
      WalkPast(data, starts[i], starts[i + 1], limit, count, msgMax, starts[i + 1..k]);
      SliceCons(starts, i, k);
    }
  }

  lemma SliceCons(xs: seq<nat>, i: nat, k: nat)
    requires i < k <= |xs|
    ensures xs[i..k] == [xs[i]] + xs[i + 1..k]
  {
  }

  /** Messages that follow one another, up to the last of these places. */
  ghost predicate Chained(data: seq<byte>, places: seq<nat>) {
    places != [] && forall i: nat | i + 1 < |places| ::
      places[i] < places[i + 1] && MessageAt(data, places[i], places[i + 1] - places[i])
  }

  /**
   How a walk goes wrong. Behind any number of messages it reads past the data if the data
   end within the next header, fails if the header has no marker or not type 2, and never
   ends at a length of 0.
   */
  lemma {:induction false} WalkGoesWrong(data: seq<byte>, places: seq<nat>, limit: nat, count: nat)
    requires Chained(data, places) && places[|places| - 1] < limit
    ensures var bad := places[|places| - 1];
            && (|data| < bad + 19 ==> Walk(data, places[0], limit, count, 0) == Wild)
            && (bad + 19 <= |data| ==>
                  var marked := forall k: nat | bad <= k < bad + 16 :: data[k] == 0xff;
                  && (!(marked && data[bad + 18] == 2) ==> Walk(data, places[0], limit, count, 0) == Aborted)
                  && (marked && data[bad + 18] == 2 && data[bad + 16] == data[bad + 17] == 0 ==>
                        Walk(data, places[0], limit, count, 0) == Wild))
    decreases |places|
  {
    var at, bad := places[0], places[|places| - 1];
    if |places| > 1 {
      var rest := places[1..];
      assert places[0] < places[0 + 1] && MessageAt(data, at, places[0 + 1] - at);
      forall i: nat | i + 1 < |rest|
        ensures rest[i] < rest[i + 1] && MessageAt(data, rest[i], rest[i + 1] - rest[i])
      {
        assert places[i + 1] < places[i + 1 + 1];
      }
      WalkGoesWrong(data, rest, limit, count + 1);
      ChainAscends(data, places, 0, |places| - 1);
      forall k | at <= k < at + 16 ensures data[k] == 0xff {
        assert data[k] == data[at..at + 16][k - at] == MARKER[k - at];
      }
    }
  }

  lemma {:induction false} ChainAscends(data: seq<byte>, places: seq<nat>, i: nat, j: nat)
    requires Chained(data, places) && i < j < |places|
    ensures places[i] < places[j]
    decreases j
  {
    if i < j - 1 { ChainAscends(data, places, i, j - 1); }
    assert places[j - 1] < places[j - 1 + 1];
  }

  /** Of the messages met, exactly those behind the first `spare` are handed on that are longer than 23 octets. */
  lemma {:induction false} HandedExactly(data: seq<byte>, seen: seq<nat>, spare: nat)
    requires Readable(data, seen)
    ensures forall at <- Handed(data, seen, spare) ::
              exists k: nat :: k < |seen| && seen[k] == at && spare <= k && Word16(data, seen[k] + 16) > 23
    ensures forall k: nat | k < |seen| && spare <= k && Word16(data, seen[k] + 16) > 23 ::
              seen[k] in Handed(data, seen, spare)
  {
    if seen != [] {
      var n := |seen| - 1;
      var before, parsed := Handed(data, seen[..n], spare), Handed(data, seen, spare);
      HandedExactly(data, seen[..n], spare);
      forall at <- parsed
        ensures exists k: nat :: k < |seen| && seen[k] == at && spare <= k && Word16(data, seen[k] + 16) > 23
      {
        if at in before {
          var k: nat :| k < n && seen[..n][k] == at && spare <= k && Word16(data, at + 16) > 23;
          assert seen[k] == at;
        } else {
          assert seen[n] == at;
        }
      }
      forall k: nat | k < |seen| && spare <= k && Word16(data, seen[k] + 16) > 23 ensures seen[k] in parsed {
        if k < n { assert seen[..n][k] == seen[k]; }
      }
    }
  }

  ghost predicate InOrder(xs: seq<nat>) { forall i, j | 0 <= i < j < |xs| :: xs[i] < xs[j] }

  /** They are handed on in the order in which they were met. */
  lemma {:induction false} HandedInOrder(data: seq<byte>, seen: seq<nat>, spare: nat)
    requires Readable(data, seen) && InOrder(seen)
    ensures InOrder(Handed(data, seen, spare)) && forall at <- Handed(data, seen, spare) :: at in seen
  {
    if seen != [] {
      var n := |seen| - 1;
      var before := Handed(data, seen[..n], spare);
      HandedInOrder(data, seen[..n], spare);
      forall at <- before ensures at in seen && at < seen[n] {
        var k :| 0 <= k < n && seen[..n][k] == at;
        assert seen[k] == at;
      }
      forall i | 0 <= i < |before| ensures before[i] < seen[n] { assert before[i] in before; }
      assert InOrder(before + [seen[n]]);
    }
  }

  lemma ReachStart(data: seq<byte>, starts: seq<nat>, length: nat, i: nat, j: nat)
    requires Framed(data, starts, length) && i <= j < |starts|
    requires starts[j] <= length
    ensures Reach(starts, i, starts[j]) == j
  {
    var r := Reach(starts, i, starts[j]);
    if r < j { StartsAscend(data, starts, length, r, j); }
  }

  ghost predicate CutsAtStarts(bufs: seq<Buf>, starts: seq<nat>, p: nat)
    requires p <= |bufs|
  {
    forall q: nat | q < p :: bufs[q].End() in starts
  }

  /** A chunk between two message starts. */
  lemma ChunkAligned(data: seq<byte>, starts: seq<nat>, length: nat, j: nat, i: nat)
    requires Framed(data, starts, length) && j < |starts| && i < |starts| && starts[j] <= starts[i]
    ensures j <= i && Walk(data, starts[j], starts[i], 0, 0) == Returned(starts[j..i])
  {
    if i < j { StartsAscend(data, starts, length, i, j); }
    if i + 1 < |starts| { StartsAscend(data, starts, length, i, |starts| - 1); }
    WalkFramed(data, starts, length, j, starts[i], 0, 0);
    ReachStart(data, starts, length, j, i);
  }

  lemma {:induction false} ChunksAligned(data: seq<byte>, starts: seq<nat>, length: nat, bufs: seq<Buf>, p: nat, i: nat)
    requires Framed(data, starts, length) && IsSplit(data, length, bufs)
    requires p <= |bufs| && CutsAtStarts(bufs, starts, p)
    requires i < |starts| && starts[i] == (if p == 0 then 0 else bufs[p - 1].End())
    ensures Chunks(data, bufs, p) == Returned(starts[..i])
    decreases p
  {
    if p == 0 {
      if i > 0 { StartsAscend(data, starts, length, 0, i); }
    } else {
      assert ChunkAt(data, length, bufs, p - 1);
      var base := bufs[p - 1].base;
      assert p > 1 ==> bufs[p - 2].End() in starts;
      var j: nat :| j < |starts| && starts[j] == base;
      ChunksAligned(data, starts, length, bufs, p - 1, j);
      ChunkAligned(data, starts, length, j, i);
      assert starts[..i] == starts[..j] + starts[j..i];
    }
  }

  /** The last cut is never before the start of the last message. */
  lemma LastCut(data: seq<byte>, starts: seq<nat>, length: nat, o: nat)
    requires Framed(data, starts, length) && IsCut(data, length, o)
    ensures starts[|starts| - 2] <= o < length
    ensures o in starts ==> o == starts[|starts| - 2]
  {
    var m := |starts| - 1;
    MessageStep(data, starts, length, m - 1);
    if o in starts {
      var i: nat :| i < |starts| && starts[i] == o;
      if i < m - 1 { StartsAscend(data, starts, length, i, m - 1); }
    }
  }

  lemma {:induction false} ChunkSeen(data: seq<byte>, bufs: seq<Buf>, p: nat, n: nat)
    requires p < n <= |bufs| && Chunks(data, bufs, n).Returned?
    ensures var chunk := Walk(data, bufs[p].base, bufs[p].End(), 0, 0);
            chunk.Returned? && forall at <- chunk.seen :: at in Chunks(data, bufs, n).seen
    decreases n
  {
    if p < n - 1 { ChunkSeen(data, bufs, p, n - 1); }
  }

  /** A chunk that is not empty starts with the message at its base. */
  lemma BaseSeen(data: seq<byte>, bufs: seq<Buf>, p: nat)
    requires p < |bufs| && bufs[p].length > 0 && Chunks(data, bufs, |bufs|).Returned?
    ensures bufs[p].base in Chunks(data, bufs, |bufs|).seen
  {
    ChunkSeen(data, bufs, p, |bufs|);
    assert Walk(data, bufs[p].base, bufs[p].End(), 0, 0).seen[0] == bufs[p].base;
  }

  lemma {:induction false} LastCutAligned(data: seq<byte>, starts: seq<nat>, length: nat, bufs: seq<Buf>, r: nat)
    requires Framed(data, starts, length) && IsSplit(data, length, bufs)
    requires Chunks(data, bufs, |bufs|) == Returned(starts[..|starts| - 2])
    requires r < |bufs| && IsCut(data, length, bufs[r].End())
    ensures bufs[r].End() == starts[|starts| - 2]
    decreases r
  {
    assert ChunkAt(data, length, bufs, r);
    var m, c, base := |starts| - 1, bufs[r].End(), bufs[r].base;
    LastCut(data, starts, length, c);
    if bufs[r].length == 0 {
      LastCutAligned(data, starts, length, bufs, r - 1);
    } else {
      BaseSeen(data, bufs, r);
      var i: nat :| i < m - 1 && starts[i] == base;
      WalkFramed(data, starts, length, i, c, 0, 0);
      ChunkSeen(data, bufs, r, |bufs|);
      var j := Reach(starts, i, c);
      if starts[m - 1] < c {
        var walked := starts[i..j];
        assert j == m by { if j < m - 1 { StartsAscend(data, starts, length, j, m - 1); } }
        assert walked[m - 1 - i] == starts[m - 1] && starts[m - 1] in walked;
        var k: nat :| k < m - 1 && starts[k] == starts[m - 1];
        StartsAscend(data, starts, length, k, m - 1);
      }
    }
  }

  lemma {:induction false} CutAligned(data: seq<byte>, starts: seq<nat>, length: nat, bufs: seq<Buf>, p: nat)
    requires Framed(data, starts, length) && IsSplit(data, length, bufs)
    requires Chunks(data, bufs, |bufs|) == Returned(starts[..|starts| - 2])
    requires p < |bufs|
    ensures bufs[p].End() in starts
    decreases |bufs| - p
  {
    var n := |bufs|;
    assert ChunkAt(data, length, bufs, p);
    if p == n - 1 {
      TargetMonotone(p, p, n, length);
      LastCutAligned(data, starts, length, bufs, p);
    } else {
      assert ChunkAt(data, length, bufs, p + 1);
      if bufs[p + 1].length == 0 {
        CutAligned(data, starts, length, bufs, p + 1);
      } else {
        BaseSeen(data, bufs, p + 1);
      }
    }
  }

  lemma AlignedAgrees(data: seq<byte>, starts: seq<nat>, length: nat, bufs: seq<Buf>)
    requires Framed(data, starts, length) && |bufs| > 0 && IsSplit(data, length, bufs)
    requires CutsAtStarts(bufs, starts, |bufs|)
    ensures Chunks(data, bufs, |bufs|) == Returned(starts[..|starts| - 2])
  {
    var p := |bufs| - 1;
    assert ChunkAt(data, length, bufs, p);
    TargetMonotone(p, p, |bufs|, length);
    LastCut(data, starts, length, bufs[p].End());
    ChunksAligned(data, starts, length, bufs, |bufs|, |starts| - 2);
  }

  /**
   Is, for every target, the greatest run that ends at or before it the start of a message?
   Said of the data alone.
   */
  ghost predicate RunsAtStarts(data: seq<byte>, starts: seq<nat>, length: nat, n: nat) {
    forall p: nat, o: nat | p < n && IsCut(data, Target(p, n, length), o) :: o in starts
  }

  lemma CutsAreRuns(data: seq<byte>, starts: seq<nat>, length: nat, bufs: seq<Buf>)
    requires IsSplit(data, length, bufs)
    ensures CutsAtStarts(bufs, starts, |bufs|) <==> RunsAtStarts(data, starts, length, |bufs|)
  {
    if RunsAtStarts(data, starts, length, |bufs|) {
      forall p: nat | p < |bufs| ensures bufs[p].End() in starts {
        assert ChunkAt(data, length, bufs, p);
      }
    }
    if CutsAtStarts(bufs, starts, |bufs|) {
      forall p: nat, o: nat | p < |bufs| && IsCut(data, Target(p, |bufs|, length), o) ensures o in starts {
        assert ChunkAt(data, length, bufs, p) && o == bufs[p].End();
      }
    }
  }

  /**
   Splitting against sequential parsing. On a well-framed stream the sequential walk
   meets every message. Parsing the chunks in order meets every message but the last,
   once each and in order, exactly when the greatest run before every target is the start
   of a message; and it is when runs of 0xff occur only where a message starts.
   */
  lemma SplitAgrees(data: seq<byte>, starts: seq<nat>, length: nat, bufs: seq<Buf>)
    requires Framed(data, starts, length) && |bufs| > 0 && IsSplit(data, length, bufs)
    ensures Walk(data, 0, length, 0, 0) == Returned(starts[..|starts| - 1])
    ensures Chunks(data, bufs, |bufs|) == Returned(starts[..|starts| - 2]) <==>
            RunsAtStarts(data, starts, length, |bufs|)
    ensures (forall o | RunAt(data, o) :: o in starts) ==> RunsAtStarts(data, starts, length, |bufs|)
  {
    assert Walk(data, 0, length, 0, 0) == Returned(starts[..|starts| - 1]) by {
      WalkFramed(data, starts, length, 0, length, 0, 0);
      ReachStart(data, starts, length, 0, |starts| - 1);
    }
    CutsAreRuns(data, starts, length, bufs);
    if CutsAtStarts(bufs, starts, |bufs|) {
      AlignedAgrees(data, starts, length, bufs);
    }
    if Chunks(data, bufs, |bufs|) == Returned(starts[..|starts| - 2]) {
      forall p: nat | p < |bufs| ensures bufs[p].End() in starts {
        CutAligned(data, starts, length, bufs, p);
      }
    }
  }

  /** Two messages, of 35 and 60 octets; the body of the first ends with sixteen octets of 0xff. */
  function LongMarker(): seq<byte> {
    seq(96, i => if i < 16 || 19 <= i < 51 then 0xff else if i == 17 then 35 else if i == 52 then 60
                 else if i == 18 || i == 53 then UPDATE else 0)
  }

  lemma LongMarkerRuns(o: nat)
    ensures RunAt(LongMarker(), o) <==> o == 0 || 19 <= o <= 35
  {
    var data := LongMarker();
    if 0 < o <= 16 { assert data[16] == 0; }
    if 16 < o < 19 { assert data[18] == UPDATE; }
    if 35 < o <= 51 { assert data[51] == 0; }
    if o > 51 && o + 16 <= |data| { assert data[o] != 0xff; }
  }

  lemma LongMarkerSplit()
    ensures Framed(LongMarker(), [0, 35, 95], 95) && IsSplit(LongMarker(), 95, [Buf(0, 32), Buf(32, 3)])
  {
    var data, bufs := LongMarker(), [Buf(0, 32), Buf(32, 3)];
    assert data[0..16] == MARKER && data[35..51] == MARKER;
    assert MessageAt(data, 0, 35) && MessageAt(data, 35, 60);
    assert IsCut(data, 47, 32) && IsCut(data, 95, 35) by {
      forall o: nat ensures RunAt(data, o) <==> o == 0 || 19 <= o <= 35 { LongMarkerRuns(o); }
    }
    assert ChunkAt(data, 95, bufs, 0) && ChunkAt(data, 95, bufs, 1);
  }

  /** Such a message is cut where its longer run allows it, and the second chunk fails on what is no message. */
  lemma LongMarkerBreaks()
    ensures var data, starts, bufs := LongMarker(), [0, 35, 95], [Buf(0, 32), Buf(32, 3)];
            && Framed(data, starts, 95) && IsSplit(data, 95, bufs)
            && Walk(data, 0, 95, 0, 0) == Returned([0, 35]) && Chunks(data, bufs, 2) == Aborted
  {
    var data, starts, bufs := LongMarker(), [0, 35, 95], [Buf(0, 32), Buf(32, 3)];
    LongMarkerSplit();
    assert Walk(data, 0, 95, 0, 0) == Returned([0, 35]) by {
      SplitAgrees(data, starts, 95, bufs);
      assert starts[..2] == [0, 35];
    }
    LongMarkerRuns(0);
    LongMarkerRuns(32);
    assert Chunks(data, bufs, 1) == Returned([0]) by {
      assert Word16(data, 16) == 35 && Walk(data, 35, 32, 1, 0) == Returned([]);
    }
    assert Walk(data, 32, 35, 0, 0) == Aborted;
  }

  /** Chunks are adjacent, and their ends never go back. */
  lemma {:induction false} ChunksAdjacent(data: seq<byte>, length: nat, bufs: seq<Buf>, p: nat, q: nat)
    requires IsSplit(data, length, bufs) && p <= q < |bufs|
    ensures bufs[p].base <= bufs[p].End() <= bufs[q].End() < length
    ensures p < q ==> bufs[p].End() <= bufs[q].base
    decreases q - p
  {
    assert ChunkAt(data, length, bufs, q);
    TargetMonotone(q, q, |bufs|, length);
    if p < q {
      ChunksAdjacent(data, length, bufs, p, q - 1);
    }
  }
}
