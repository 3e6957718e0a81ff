/** The Loc-RIB journal: a wrap-around buffer of address references with a read and a write cursor. */
module Journal {
  import opened Basics

  /** Returned by a pull that finds nothing; never a legal entry. */
  const JOURNAL_EMPTY: uint32 := 0xffff_ffff

  /** What lies between the cursors of a ring, oldest entry first. */
  function Between(ring: seq<uint32>, jread: nat, jwrite: nat): seq<uint32>
    requires jread < |ring| && jwrite < |ring|
  {
    if jread <= jwrite then ring[jread..jwrite] else ring[jread..] + ring[..jwrite]
  }

  /** One cursor movement: the successor modulo the ring size. */
  function Advance(cursor: nat, size: nat): (next: nat)
    requires cursor < size
    ensures next == if cursor + 1 == size then 0 else cursor + 1
  {
    (cursor + 1) % size
  }

  lemma BetweenPush(ring: seq<uint32>, jread: nat, jwrite: nat, x: uint32)
    requires jread < |ring| && jwrite < |ring|
    requires Advance(jwrite, |ring|) != jread
    ensures Between(ring[jwrite := x], jread, Advance(jwrite, |ring|)) == Between(ring, jread, jwrite) + [x]
  {
    var ring' := ring[jwrite := x];
    if jread <= jwrite {
      assert ring'[jread..jwrite + 1] == ring[jread..jwrite] + [x];
    } else {
      assert ring'[jread..] == ring[jread..];
      assert ring'[..jwrite + 1] == ring[..jwrite] + [x];
    }
  }

  lemma BetweenPull(ring: seq<uint32>, jread: nat, jwrite: nat)
    requires jread < |ring| && jwrite < |ring| && jread != jwrite
    ensures Between(ring, jread, jwrite) == [ring[jread]] + Between(ring, Advance(jread, |ring|), jwrite)
  {
    if jread < jwrite {
      assert ring[jread..jwrite] == [ring[jread]] + ring[jread + 1..jwrite];
    } else {
      var rest := ring[jread + 1..];
      assert ring[jread..] == [ring[jread]] + rest;
      assert ([ring[jread]] + rest) + ring[..jwrite] == [ring[jread]] + (rest + ring[..jwrite]);
      if jread + 1 == |ring| {
        assert rest + ring[..jwrite] == ring[..jwrite] == ring[0..jwrite];
      }
    }
  }

  /** The write cursor catches the read cursor exactly when the ring already holds all but one of its slots. */
  lemma OverrunExactly(ring: seq<uint32>, jread: nat, jwrite: nat)
    requires jread < |ring| && jwrite < |ring|
    ensures Advance(jwrite, |ring|) == jread <==> |Between(ring, jread, jwrite)| == |ring| - 1
  {
  }

  class Journal {
    const ring: array<uint32>
    var jread: nat
    var jwrite: nat

    ghost predicate Valid()
      reads this, ring
    {
      && jread < ring.Length && jwrite < ring.Length
      && JOURNAL_EMPTY !in Contents()
    }

    ghost function Contents(): seq<uint32>
      reads this, ring
      requires jread < ring.Length && jwrite < ring.Length
    {
      Between(ring[..], jread, jwrite)
    }

    constructor (capacity: nat)
      requires 0 < capacity
      ensures Valid() && fresh(ring) && ring.Length == capacity && Contents() == []
    {
      ring := new uint32[capacity](_ => 0);
      jread, jwrite := 0, 0;
    }

    /** `ok` is the outcome of the overrun assertion. */
    method Push(addrref: uint32) returns (ok: bool)
      requires Valid() && addrref != JOURNAL_EMPTY
      modifies this`jwrite, ring
      ensures ok <==> old(|Contents()|) < ring.Length - 1
      ensures ok ==> Valid() && Contents() == old(Contents()) + [addrref]
    {
      OverrunExactly(ring[..], jread, jwrite);
      if Advance(jwrite, ring.Length) != jread {
        BetweenPush(ring[..], jread, jwrite, addrref);
      }
      ring[jwrite] := addrref;
      jwrite := Advance(jwrite, ring.Length);
      ok := jwrite != jread;
    }

    method Pull() returns (rval: uint32)
      requires Valid()
      modifies this`jread
      ensures Valid()
      ensures rval == 0xffff_ffff <==> old(Contents()) == []
      ensures old(Contents()) == if rval == JOURNAL_EMPTY then Contents() else [rval] + Contents()
    {
      if jwrite != jread {
        BetweenPull(ring[..], jread, jwrite);
        rval := ring[jread];
        jread := Advance(jread, ring.Length);
        assert rval in old(Contents());
      } else {
        rval := JOURNAL_EMPTY;
      }
    }
  }
}
