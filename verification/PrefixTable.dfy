/** The prefix table: a forward table from prefix to index, and its inverse, filled on demand. */
module PrefixTable {
  import opened Basics
  import opened Prefixes
  import opened Nlri

  const BIG: nat := 1000000
  const TOO_BIG: nat := BIG + 1

  /** `rib` maps a packed prefix to its index, 0 meaning empty; `issued` lists the packed prefixes by index. */
  datatype Table = Table(rib: map<nat, nat>, issued: seq<nat>)

  function Index(t: Table, ref: nat): nat {
    if ref in t.rib then t.rib[ref] else 0
  }

  function Insert(t: Table, ref: nat): Table {
    Table(t.rib[ref := |t.issued|], t.issued + [ref])
  }

  /** The table after a lookup, and the index returned. */
  function Lookup(t: Table, ref: nat): (Table, nat) {
    if Index(t, ref) == 0 then (Insert(t, ref), |t.issued|) else (t, Index(t, ref))
  }

  /** Non-zero entries and issued indices above 0 are inverse to each other. */
  ghost predicate Inverse(t: Table) {
    && (forall r: nat | Index(t, r) != 0 :: Index(t, r) < |t.issued| && t.issued[Index(t, r)] == r)
    && (forall k | 1 <= k < |t.issued| :: Index(t, t.issued[k]) == k)
  }

  lemma LookupKeepsInverse(t: Table, ref: nat)
    requires Inverse(t)
    ensures Inverse(Lookup(t, ref).0)
    ensures Lookup(t, ref).1 < |Lookup(t, ref).0.issued| && Lookup(t, ref).0.issued[Lookup(t, ref).1] == ref
    ensures t.issued <= Lookup(t, ref).0.issued
  {
    var t' := Lookup(t, ref).0;
    forall r: nat | Index(t', r) != 0 ensures Index(t', r) < |t'.issued| && t'.issued[Index(t', r)] == r {
      assert r == ref || Index(t', r) == Index(t, r);
    }
  }

  /** The table after a sequence of lookups. */
  function LookupAll(t: Table, refs: seq<nat>): Table {
    if refs == [] then t else Lookup(LookupAll(t, refs[..|refs| - 1]), refs[|refs| - 1]).0
  }

  const EMPTY := Table(map[], [])

  /** The index returned by the lookup at position `k` of the sequence. */
  function Returned(refs: seq<nat>, k: nat): nat
    requires k < |refs|
  {
    Lookup(LookupAll(EMPTY, refs[..k]), refs[k]).1
  }

  lemma {:induction false} LookupAllFacts(refs: seq<nat>)
    ensures Inverse(LookupAll(EMPTY, refs))
    ensures forall r :: r in LookupAll(EMPTY, refs).issued <==> r in refs
    ensures refs != [] ==> LookupAll(EMPTY, refs).issued != [] && LookupAll(EMPTY, refs).issued[0] == refs[0]
    ensures refs != [] ==> (Index(LookupAll(EMPTY, refs), refs[0]) != 0 <==> refs[0] in refs[1..])
  {
    if refs != [] {
      var n := |refs| - 1;
      var before, r := refs[..n], refs[n];
      LookupAllFacts(before);
      LookupKeepsInverse(LookupAll(EMPTY, before), r);
      assert refs == before + [r];
      if n > 0 {
        assert refs[1..] == before[1..] + [r];
      }
    }
  }

  function ToSet(xs: seq<nat>): set<nat> { set x | x in xs }

  /** Does the first prefix occur again? */
  predicate FirstRecurs(refs: seq<nat>) { refs != [] && refs[0] in refs[1..] }

  /** A lookup issues an index for a prefix not seen before, and for the first one the second time it is seen. */
  lemma IssuesWhen(before: seq<nat>, r: nat)
    ensures Index(LookupAll(EMPTY, before), r) == 0 <==>
            r !in before || (r == before[0] && !FirstRecurs(before))
  {
    var t := LookupAll(EMPTY, before);
    LookupAllFacts(before);
    assert Index(t, r) != 0 ==> t.issued[Index(t, r)] == r;
    if r in before && Index(t, r) == 0 {
      var k :| 0 <= k < |t.issued| && t.issued[k] == r;
    }
  }

  lemma ToSetSnoc(before: seq<nat>, r: nat)
    ensures |ToSet(before + [r])| == |ToSet(before)| + if r in before then 0 else 1
    ensures FirstRecurs(before + [r]) <==> FirstRecurs(before) || (before != [] && r == before[0])
  {
    assert ToSet(before + [r]) == ToSet(before) + {r};
    assert r in before ==> ToSet(before) + {r} == ToSet(before);
    if before != [] {
      assert (before + [r])[1..] == before[1..] + [r];
    }
  }

  /**
   The number of indices issued is the number of different prefixes looked up, plus one
   exactly when the first prefix is looked up again: its index 0 reads as empty.
   */
  lemma {:induction false} IssuedExactly(refs: seq<nat>)
    ensures |LookupAll(EMPTY, refs).issued| == |ToSet(refs)| + if FirstRecurs(refs) then 1 else 0
  {
    if refs != [] {
      var before, r := refs[..|refs| - 1], refs[|refs| - 1];
      IssuedExactly(before);
      IssuesWhen(before, r);
      ToSetSnoc(before, r);
      assert refs == before + [r];
    }
  }

  lemma {:induction false} IssuedOnlyGrows(refs: seq<nat>, k: nat)
    requires k <= |refs|
    ensures LookupAll(EMPTY, refs[..k]).issued <= LookupAll(EMPTY, refs).issued
    decreases |refs| - k
  {
    if k < |refs| {
      IssuedOnlyGrows(refs, k + 1);
      assert refs[..k + 1][..k] == refs[..k];
    } else {
      assert refs[..k] == refs;
    }
  }

  /** Every index ever returned names the prefix it was returned for, in the final inverse table. */
  lemma ReturnedNamesPrefix(refs: seq<nat>, k: nat)
    requires k < |refs|
    ensures Returned(refs, k) < |LookupAll(EMPTY, refs).issued|
    ensures LookupAll(EMPTY, refs).issued[Returned(refs, k)] == refs[k]
  {
    LookupAllFacts(refs[..k]);
    LookupKeepsInverse(LookupAll(EMPTY, refs[..k]), refs[k]);
    assert refs[..k + 1][..k] == refs[..k];
    IssuedOnlyGrows(refs, k + 1);
  }

  /**
   Two lookups return one index exactly when they ask for one prefix, unless the earlier
   was answered with index 0.
   */
  lemma ReturnedDistinguishes(refs: seq<nat>, j: nat, k: nat)
    requires j < k < |refs|
    ensures refs[j] != refs[k] ==> Returned(refs, j) != Returned(refs, k)
    ensures refs[j] == refs[k] && Returned(refs, j) != 0 ==> Returned(refs, j) == Returned(refs, k)
    ensures Returned(refs, j) == 0 <==> j == 0
  {
    ReturnedNamesPrefix(refs, j);
    ReturnedNamesPrefix(refs, k);
    LookupAllFacts(refs[..j]);
    LookupKeepsInverse(LookupAll(EMPTY, refs[..j]), refs[j]);
    if refs[j] == refs[k] && Returned(refs, j) != 0 {
      var early := LookupAll(EMPTY, refs[..j + 1]);
      assert refs[..j + 1][..j] == refs[..j];
      assert early.issued[Returned(refs, j)] == refs[j];
      LookupAllFacts(refs[..k]);
      assert refs[..k][..j + 1] == refs[..j + 1];
      IssuedOnlyGrows(refs[..k], j + 1);
      assert LookupAll(EMPTY, refs[..k]).issued[Returned(refs, j)] == refs[j];
    }
  }

  class PrefixIndex {
    const rib: array<nat>
    const bigtable: array<nat>
    var index: nat
    ghost var table: Table  // what the arrays hold

    ghost predicate Valid()
      reads this, rib, bigtable
    {
      && rib.Length == RIBSIZE && bigtable.Length == BIG && rib != bigtable
      && index <= bigtable.Length && bigtable[..index] == table.issued
      && (forall r | 0 <= r < rib.Length :: rib[r] == Index(table, r))
      && (forall r <- table.issued :: 1 <= r < Shl(1, 25))
      && Inverse(table)
    }

    /** Is there an index for this prefix, or a free slot in the inverse table? */
    ghost predicate RoomFor(ref: nat)
      reads this
    {
      Index(table, ref) != 0 || index < bigtable.Length
    }

    constructor ()
      ensures Valid() && table == EMPTY && bigtable.Length == 1000000 && fresh(rib) && fresh(bigtable)
    {
      rib := new nat[RIBSIZE](_ => 0);
      bigtable := new nat[BIG](_ => 0);
      index, table := 0, EMPTY;
    }

    /** A prefix that needs a new index must find room in the inverse table, which the program does not check. */
    method LookupRIB(l: nat, address: uint32) returns (btindex: nat)
      requires Valid() && l <= MAX_LENGTH && RoomFor(Encode(l, address))
      modifies this, rib, bigtable
      ensures Valid() && (table, btindex) == Lookup(old(table), Encode(l, address))
    {
      var ref := Encode(l, address);
      EncodeInterval(l, address);
      ShlPositive(1, l);
      LookupKeepsInverse(table, ref);
      btindex := rib[ref];
      if btindex == 0 {
        btindex := index;
        index := index + 1;
        rib[ref] := btindex;
        bigtable[btindex] := ref;
        table := Insert(table, ref);
      }
    }

    method LookupRIB64(la: prefix64) returns (addrref: nat)
      requires Valid() && (Length(la) <= MAX_LENGTH ==> RoomFor(Encode(Length(la), Address(la))))
      modifies this, rib, bigtable
      ensures Valid()
      ensures Length(la) > 24 ==> addrref == 1000001 && table == old(table)
      ensures Length(la) <= 24 ==> (table, addrref) == Lookup(old(table), Encode(Length(la), Address(la)))
    {
      addrref := TOO_BIG;
      if Length(la) < 25 {
        addrref := LookupRIB(Length(la), Address(la));
      }
    }

    /**
     The result is false where the assertion fails, on an index not issued. A prefix of
     length 0 cannot be decoded.
     */
    method LookupBigtable(addrref: nat) returns (ok: bool, la: prefix64)
      requires Valid() && addrref != TOO_BIG && (addrref < |table.issued| ==> table.issued[addrref] != 1)
      ensures ok <==> addrref < |table.issued|
      ensures ok ==> 2 <= table.issued[addrref] < Shl(1, 25) && la == Decode(table.issued[addrref])
    {
      if addrref >= index {
        return false, 0;
      }
      assert bigtable[addrref] == table.issued[addrref] && table.issued[addrref] in table.issued;
      ok, la := true, Decode(bigtable[addrref]);
    }

    /** A prefix that has been through the table, in both directions, has lost its host bits and nothing else. */
    method LookupBothWays(la: prefix64) returns (canonical: prefix64)
      requires Valid() && 1 <= Length(la) <= MAX_LENGTH && RoomFor(Encode(Length(la), Address(la)))
      modifies this, rib, bigtable
      ensures Valid() && canonical == MaskedPrefix(la)
    {
      LookupKeepsInverse(table, Encode(Length(la), Address(la)));
      DecodeEncode(Length(la), Address(la));
      var addrref := LookupRIB64(la);
      var ok;
      ok, canonical := LookupBigtable(addrref);
    }
  }

  /** What the inverse table answers for a prefix that the forward table has indexed. */
  function Canonical(la: prefix64): (canonical: prefix64)
    requires 1 <= Length(la) <= MAX_LENGTH
    ensures canonical == MaskedPrefix(la)
  {
    DecodeEncode(Length(la), Address(la));
    Decode(Encode(Length(la), Address(la)))
  }

  /**
   Wire, table, wire: the octets written for a prefix read from the wire have the same
   length and leading bits and no host bits, and going round again changes nothing.
   */
  lemma WireCanonicalisation(wire: seq<byte>)
    requires StartsPrefix(wire) && 1 <= wire[0] <= MAX_LENGTH
    ensures var la := WirePrefix(wire);
            var out := PrefixWire(Canonical(la));
            && out[0] == wire[0] && StartsPrefix(out)
            && Shr(Address(WirePrefix(out)), 32 - wire[0]) == Shr(Address(la), 32 - wire[0])
            && MaskedPrefix(WirePrefix(out)) == WirePrefix(out)
            && PrefixWire(Canonical(WirePrefix(out))) == out
  {
    var la := WirePrefix(wire);
    var l, a := Length(la), Address(la);
    var canonical := Canonical(la);
    MaskedKeepsLeadingBits(l, a);
    MaskedWider(l, 8 * Chunks(l), Address(canonical));
    PrefixRoundTrip(canonical, []);
    assert PrefixWire(canonical) + [] == PrefixWire(canonical);
  }
}
