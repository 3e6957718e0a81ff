/** What the serializers preserve of the attributes they are given. */
module ExportMeaning {
  import opened Basics
  import opened Nlri
  import opened Attributes
  import opened Export
  import opened Import
  import opened Grouping

  /** The well-known mandatory attributes of section 5 of RFC 4271. */
  ghost predicate MandatoryPresent(attrs: seq<Attr>) {
    Find(attrs, ORIGIN).Some? && Find(attrs, AS_PATH).Some? && Find(attrs, NEXT_HOP).Some?
  }

  lemma {:induction false} PresentCounts(attrs: seq<Attr>, t: byte)
    requires Find(attrs, t).Some?
    ensures CountBetween(attrs, t, t + 1) >= 1
  {
    if attrs[0].typeCode != t {
      PresentCounts(attrs[1..], t);
    }
  }

  lemma MandatoryCounts(attrs: seq<Attr>)
    requires MandatoryPresent(attrs)
    ensures CountBetween(attrs, ORIGIN, AS_PATH) >= 1 && CountBetween(attrs, AS_PATH, NEXT_HOP) >= 1
    ensures CountBetween(attrs, ORIGIN, NEXT_HOP) >= 2 && CountBetween(attrs, NEXT_HOP, COMMUNITY) >= 1
    ensures CountBetween(attrs, AS_PATH, COMMUNITY) >= 2 && CountBetween(attrs, ORIGIN, COMMUNITY) >= 3
  {
    PresentCounts(attrs, ORIGIN);
    PresentCounts(attrs, AS_PATH);
    PresentCounts(attrs, NEXT_HOP);
    CountAdds(attrs, ORIGIN, AS_PATH, NEXT_HOP);
    CountAdds(attrs, NEXT_HOP, NEXT_HOP + 1, COMMUNITY);
    CountAdds(attrs, AS_PATH, NEXT_HOP, COMMUNITY);
    CountAdds(attrs, ORIGIN, AS_PATH, COMMUNITY);
  }

  /**
   With the mandatory attributes in ascending order, the cursor of the copying serializer
   answers like independent searches.
   */
  lemma MandatoryMeansNothingSwallowed(attrs: seq<Attr>)
    requires Ascending(attrs) && MandatoryPresent(attrs)
    ensures NothingSwallowed(attrs, COPIED) && Gets(attrs, COPIED) == Finds(attrs, COPIED)
  {
    MandatoryCounts(attrs);
    forall j, i | 0 <= j < i < |COPIED| && Find(attrs, COPIED[i]).Some?
      ensures i - j <= CountBetween(attrs, COPIED[j], COPIED[i])
    {
      assert (j, i) in {(0, 1), (0, 2), (0, 3), (1, 2), (1, 3), (2, 3)};
    }
    CursorRefinesSearch(attrs, COPIED);
  }

  // ---------------------------------------------------------------- copying

  /** The attributes of the wanted types, re-encoded. */
  function Project(attrs: seq<Attr>, wanted: seq<byte>): seq<Attr> {
    if attrs == [] then []
    else if attrs[0].typeCode in wanted then [Canon(attrs[0])] + Project(attrs[1..], wanted)
    else Project(attrs[1..], wanted)
  }

  lemma {:induction false} ProjectNone(attrs: seq<Attr>, wanted: seq<byte>)
    requires forall a <- attrs :: a.typeCode !in wanted
    ensures Project(attrs, wanted) == []
  {
    if attrs != [] {
      assert attrs[0] in attrs;
      ProjectNone(attrs[1..], wanted);
    }
  }

  lemma {:induction false} ProjectWithout(attrs: seq<Attr>, w: byte, wanted: seq<byte>)
    requires forall a <- attrs :: a.typeCode != w
    ensures Project(attrs, [w] + wanted) == Project(attrs, wanted)
  {
    if attrs != [] {
      assert attrs[0] in attrs;
      forall a <- attrs[1..] ensures a.typeCode != w { assert a in attrs; }
      ProjectWithout(attrs[1..], w, wanted);
    }
  }

  /** Independent searches for increasing types find the projection. */
  lemma {:induction false} FindsProject(attrs: seq<Attr>, wanted: seq<byte>)
    requires Ascending(attrs) && Increasing(wanted)
    ensures Kept(Finds(attrs, wanted)) == Project(attrs, wanted)
    decreases |attrs| + |wanted|
  {
    if wanted == [] {
      ProjectNone(attrs, wanted);
    } else if attrs == [] {
      FindsProject(attrs, wanted[1..]);
    } else if attrs[0].typeCode < wanted[0] {
      FindsSkip(attrs, wanted);
      FindsProject(attrs[1..], wanted);
    } else {
      var w, ws, rest := wanted[0], wanted[1..], attrs[1..];
      assert wanted == [w] + ws;
      forall a <- rest ensures a.typeCode != w {
        var k :| 0 <= k < |rest| && rest[k] == a;
        assert attrs[0].typeCode < attrs[k + 1].typeCode;
      }
      ProjectWithout(rest, w, ws);
      if attrs[0].typeCode == w {
        FindsSkip(attrs, ws);
        FindsProject(rest, ws);
      } else {
        ProjectWithout(attrs, w, ws);
        FindNone(attrs, w);
        FindsProject(attrs, ws);
      }
    }
  }

  /** Everything found in `g` is found in `f` too. */
  ghost predicate Within(g: seq<Option<Attr>>, f: seq<Option<Attr>>) {
    |g| == |f| && forall i | 0 <= i < |g| :: g[i].Some? ==> g[i] == f[i]
  }

  lemma {:induction false} FewerKept(g: seq<Option<Attr>>, f: seq<Option<Attr>>)
    requires Within(g, f)
    ensures |Kept(g)| <= |Kept(f)| && (|Kept(g)| == |Kept(f)| ==> g == f)
  {
    if g != [] {
      FewerKept(g[1..], f[1..]);
      assert g == [g[0]] + g[1..] && f == [f[0]] + f[1..];
    }
  }

  /** Does each find carry the type it was asked for? */
  ghost predicate Typed(found: seq<Option<Attr>>, wanted: seq<byte>) {
    |found| == |wanted| && forall i | 0 <= i < |found| :: found[i].Some? ==> found[i].value.typeCode == wanted[i]
  }

  lemma {:induction false} GetsTyped(attrs: seq<Attr>, wanted: seq<byte>)
    ensures Typed(Gets(attrs, wanted), wanted)
    ensures forall i | 0 <= i < |wanted| :: Gets(attrs, wanted)[i].Some? ==> Gets(attrs, wanted)[i].value in attrs
    decreases |wanted|
  {
    if wanted != [] {
      ScanFacts(attrs, wanted[0]);
      GetsTyped(Scan(attrs, wanted[0]).1, wanted[1..]);
      forall i | 0 <= i < |wanted| && Gets(attrs, wanted)[i].Some?
        ensures Gets(attrs, wanted)[i].value in attrs && Gets(attrs, wanted)[i].value.typeCode == wanted[i]
      {
        if i > 0 {
          assert Gets(attrs, wanted)[i] == Gets(Scan(attrs, wanted[0]).1, wanted[1..])[i - 1];
        }
      }
    }
  }

  lemma GetsWithinFinds(attrs: seq<Attr>, wanted: seq<byte>)
    requires Ascending(attrs)
    ensures Within(Gets(attrs, wanted), Finds(attrs, wanted))
  {
    GetsTyped(attrs, wanted);
    forall i | 0 <= i < |wanted| && Gets(attrs, wanted)[i].Some?
      ensures Gets(attrs, wanted)[i] == Finds(attrs, wanted)[i]
    {
      FindsAt(attrs, wanted, i);
      FindNone(attrs, wanted[i]);
      var a, b := Gets(attrs, wanted)[i].value, Find(attrs, wanted[i]).value;
      var j, k :| 0 <= j < |attrs| && 0 <= k < |attrs| && attrs[j] == a && attrs[k] == b;
    }
  }

  /**
   The copying serializer writes the projection of ascending attributes to the types it
   asks for, up to the extended-length bit, exactly when nothing wanted is swallowed.
   */
  lemma CopyProjects(attrs: seq<Attr>)
    requires Ascending(attrs)
    ensures CopyAttrs(attrs) == Project(attrs, COPIED) <==> NothingSwallowed(attrs, COPIED)
  {
    CursorRefinesSearch(attrs, COPIED);
    FindsProject(attrs, COPIED);
    GetsWithinFinds(attrs, COPIED);
    FewerKept(Gets(attrs, COPIED), Finds(attrs, COPIED));
  }

  /** Is there an attribute of this type? */
  ghost predicate Has(attrs: seq<Attr>, typeCode: byte) {
    exists a <- attrs :: a.typeCode == typeCode
  }

  lemma {:induction false} ProjectHolds(attrs: seq<Attr>, wanted: seq<byte>)
    ensures forall a <- attrs | a.typeCode in wanted :: Canon(a) in Project(attrs, wanted)
    ensures forall b <- Project(attrs, wanted) :: b.typeCode in wanted && exists a <- attrs :: b == Canon(a)
  {
    if attrs != [] {
      var x, rest := attrs[0], Project(attrs[1..], wanted);
      ProjectHolds(attrs[1..], wanted);
      assert x in attrs && attrs == [x] + attrs[1..];
      forall b <- Project(attrs, wanted) ensures b.typeCode in wanted && exists a <- attrs :: b == Canon(a) {
        if b !in rest {
          assert b == Canon(x);
        } else {
          var a :| a in attrs[1..] && b == Canon(a);
          assert a in attrs;
        }
      }
    }
  }

  lemma MandatoryCopy(attrs: seq<Attr>)
    requires Ascending(attrs) && Has(attrs, 1) && Has(attrs, 2) && Has(attrs, 3)
    ensures CopyAttrs(attrs) == Project(attrs, COPIED) && Ascending(CopyAttrs(attrs))
  {
    assert MandatoryPresent(attrs) by {
      FindNone(attrs, 1);
      FindNone(attrs, 2);
      FindNone(attrs, 3);
    }
    MandatoryMeansNothingSwallowed(attrs);
    CopyProjects(attrs);
    GetsTyped(attrs, COPIED);
    KeptAscending(Gets(attrs, COPIED), COPIED);
  }

  /**
   With the mandatory attributes, types 1, 2 and 3, in ascending order, the copy holds
   exactly the attributes of types 1, 2, 3 and 8, each with its value, in order.
   */
  lemma CopyKeepsTypes(attrs: seq<Attr>)
    requires Ascending(attrs) && Has(attrs, 1) && Has(attrs, 2) && Has(attrs, 3)
    ensures forall a <- attrs | a.typeCode in {1, 2, 3, 8} :: Canon(a) in CopyAttrs(attrs)
    ensures forall b <- CopyAttrs(attrs) :: b.typeCode in {1, 2, 3, 8} && exists a <- attrs :: b == Canon(a)
    ensures Ascending(CopyAttrs(attrs))
    ensures forall a: Attr :: Canon(a).typeCode == a.typeCode && Canon(a).value == a.value
  {
    MandatoryCopy(attrs);
    ProjectHolds(attrs, COPIED);
    forall t: byte ensures t in COPIED <==> t in {1, 2, 3, 8} {}
  }

  // ---------------------------------------------------------------- copying twice

  /** No find follows a miss. */
  ghost predicate FindsComeFirst(found: seq<Option<Attr>>) {
    forall j, i | 0 <= j < i < |found| :: found[i].Some? ==> found[j].Some?
  }

  function CountFound(found: seq<Option<Attr>>, low: nat, high: nat): (n: nat)
    requires low <= high <= |found|
    ensures n <= high - low
    decreases high - low
  {
    if low == high then 0 else CountFound(found, low + 1, high) + if found[low].Some? then 1 else 0
  }

  lemma {:induction false} CountFoundFull(found: seq<Option<Attr>>, low: nat, high: nat)
    requires low <= high <= |found|
    ensures CountFound(found, low, high) == high - low <==> forall k | low <= k < high :: found[k].Some?
    decreases high - low
  {
    if low < high { CountFoundFull(found, low + 1, high); }
  }

  lemma {:induction false} CountFoundTail(found: seq<Option<Attr>>, low: nat, high: nat)
    requires 1 <= low <= high <= |found|
    ensures CountFound(found, low, high) == CountFound(found[1..], low - 1, high - 1)
    decreases high - low
  {
    if low < high { CountFoundTail(found, low + 1, high); }
  }

  lemma {:induction false} KeptTypes(found: seq<Option<Attr>>, wanted: seq<byte>)
    requires Typed(found, wanted)
    ensures forall a <- Kept(found) :: a.typeCode in wanted && Canon(a) == a
  {
    if found != [] {
      KeptTypes(found[1..], wanted[1..]);
      assert wanted[0] in wanted;
      forall a <- Kept(found[1..]) ensures a.typeCode in wanted { assert a.typeCode in wanted[1..]; }
    }
  }

  lemma {:induction false} KeptAscending(found: seq<Option<Attr>>, wanted: seq<byte>)
    requires Typed(found, wanted) && Increasing(wanted)
    ensures Ascending(Kept(found))
  {
    if found != [] {
      KeptAscending(found[1..], wanted[1..]);
      KeptTypes(found[1..], wanted[1..]);
      var tail := Kept(found[1..]);
      forall k | 0 <= k < |tail| ensures wanted[0] < tail[k].typeCode {
        assert tail[k] in tail;
        var m :| 0 <= m < |wanted[1..]| && wanted[1..][m] == tail[k].typeCode;
        assert wanted[0] < wanted[m + 1];
      }
    }
  }

  lemma KeptAbove(found: seq<Option<Attr>>, wanted: seq<byte>)
    requires Typed(found, wanted) && Increasing(wanted) && found != []
    ensures forall a <- Kept(found[1..]) :: wanted[0] < a.typeCode
    ensures |wanted| > 1 ==> forall a <- Kept(found[1..]) :: wanted[1] <= a.typeCode
  {
    KeptTypes(found[1..], wanted[1..]);
    forall a <- Kept(found[1..]) ensures wanted[0] < a.typeCode && (|wanted| > 1 ==> wanted[1] <= a.typeCode) {
      var m :| 0 <= m < |wanted[1..]| && wanted[1..][m] == a.typeCode;
      assert wanted[0] < wanted[m + 1];
    }
  }

  /** Among attributes that were found for increasing types, counting between two of the types counts finds. */
  lemma {:induction false} CountKept(found: seq<Option<Attr>>, wanted: seq<byte>, j: nat, i: nat)
    requires Typed(found, wanted) && Increasing(wanted) && j <= i < |wanted|
    ensures CountBetween(Kept(found), wanted[j], wanted[i]) == CountFound(found, j, i)
    decreases |found|
  {
    var rest, ws := found[1..], wanted[1..];
    KeptAbove(found, wanted);
    if i == 0 {
      CountNone(Kept(found), wanted[0], wanted[0]) by {
        KeptTypes(found, wanted);
        forall a <- Kept(found) ensures wanted[0] <= a.typeCode {
          var m :| 0 <= m < |wanted| && wanted[m] == a.typeCode;
        }
      }
    } else if j == 0 {
      CountKept(rest, ws, 0, i - 1);
      CountFoundTail(found, 1, i);
      CountAdds(Kept(rest), wanted[0], wanted[1], wanted[i]);
      CountNone(Kept(rest), wanted[0], wanted[1]);
    } else {
      CountKept(rest, ws, j - 1, i - 1);
      CountFoundTail(found, j, i);
    }
  }

  lemma {:induction false} FindKept(found: seq<Option<Attr>>, wanted: seq<byte>, i: nat)
    requires Typed(found, wanted) && Increasing(wanted) && i < |wanted|
    ensures Find(Kept(found), wanted[i]).Some? <==> found[i].Some?
  {
    FindNone(Kept(found), wanted[i]);
    if i == 0 {
      KeptAbove(found, wanted);
    } else {
      FindKept(found[1..], wanted[1..], i - 1);
      FindNone(Kept(found[1..]), wanted[i]);
    }
  }

  lemma PrefixMeansNothingSwallowed(found: seq<Option<Attr>>, wanted: seq<byte>)
    requires Typed(found, wanted) && Increasing(wanted)
    ensures NothingSwallowed(Kept(found), wanted) <==> FindsComeFirst(found)
  {
    forall j, i | 0 <= j < i < |found|
      ensures i - j <= CountBetween(Kept(found), wanted[j], wanted[i]) <==> forall k | j <= k < i :: found[k].Some?
      ensures Find(Kept(found), wanted[i]).Some? <==> found[i].Some?
    {
      CountKept(found, wanted, j, i);
      CountFoundFull(found, j, i);
      FindKept(found, wanted, i);
    }
  }

  lemma {:induction false} ProjectAll(attrs: seq<Attr>, wanted: seq<byte>)
    requires forall a <- attrs :: a.typeCode in wanted && Canon(a) == a
    ensures Project(attrs, wanted) == attrs
  {
    if attrs != [] {
      assert attrs[0] in attrs;
      ProjectAll(attrs[1..], wanted);
      assert attrs == [attrs[0]] + attrs[1..];
    }
  }

  lemma WiresInjective(xs: seq<Attr>, ys: seq<Attr>)
    requires AllFramed(xs) && AllFramed(ys)
    ensures Wires(xs) == Wires(ys) <==> xs == ys
  {
    ParseWires(Wires(xs), 0, |Wires(xs)|, xs) by { assert Wires(xs)[0..|Wires(xs)|] == Wires(xs); }
    ParseWires(Wires(ys), 0, |Wires(ys)|, ys) by { assert Wires(ys)[0..|Wires(ys)|] == Wires(ys); }
  }

  /** In terms of what the first pass found, for any attributes at all. */
  lemma CopyTwiceFinds(attrs: seq<Attr>)
    ensures Wires(CopyAttrs(CopyAttrs(attrs))) == Wires(CopyAttrs(attrs)) <==> FindsComeFirst(Gets(attrs, COPIED))
  {
    var found, once := Gets(attrs, COPIED), CopyAttrs(attrs);
    GetsTyped(attrs, COPIED);
    KeptAscending(found, COPIED);
    KeptTypes(found, COPIED);
    ProjectAll(once, COPIED);
    CopyProjects(once);
    PrefixMeansNothingSwallowed(found, COPIED);
    WiresInjective(CopyAttrs(once), once);
  }

  /** No wanted type is reached after one that is not; read off the types of the attributes alone. */
  ghost predicate ReachedComeFirst(attrs: seq<Attr>, wanted: seq<byte>) {
    forall j, i | 0 <= j < i < |wanted| :: Reached(attrs, wanted, i) ==> Reached(attrs, wanted, j)
  }

  /**
   Serializing the copy of ascending attributes once more gives the same octets exactly
   when the types reached come first among those asked for.
   */
  lemma CopyTwice(attrs: seq<Attr>)
    requires Ascending(attrs)
    ensures Wires(CopyAttrs(CopyAttrs(attrs))) == Wires(CopyAttrs(attrs)) <==> ReachedComeFirst(attrs, COPIED)
  {
    CopyTwiceFinds(attrs);
    forall i: nat | i < |COPIED| ensures Gets(attrs, COPIED)[i].Some? <==> Reached(attrs, COPIED, i) {
      GetsExactly(attrs, COPIED, i);
    }
  }

  /** So with the mandatory attributes in ascending order the copy is final. */
  lemma CopyIsFinal(attrs: seq<Attr>)
    requires Ascending(attrs) && MandatoryPresent(attrs)
    ensures Wires(CopyAttrs(CopyAttrs(attrs))) == Wires(CopyAttrs(attrs))
  {
    MandatoryMeansNothingSwallowed(attrs);
    forall j: nat | j < |COPIED| - 1 ensures Reached(attrs, COPIED, j) {
      assert COPIED[j] in {ORIGIN, AS_PATH, NEXT_HOP};
    }
    CopyTwice(attrs);
  }

  /** It is not for types 1, 4, 5 and 8: the first pass keeps 1 and 8, and the second loses 8. */
  lemma CopyNotFinal(origin: Attr, med: Attr, localPref: Attr, community: Attr)
    requires origin.typeCode == ORIGIN && med.typeCode == MULTI_EXIT_DISC
    requires localPref.typeCode == LOCAL_PREF && community.typeCode == COMMUNITY
    ensures var attrs := [origin, med, localPref, community];
            Ascending(attrs) && Wires(CopyAttrs(CopyAttrs(attrs))) != Wires(CopyAttrs(attrs))
  {
    var attrs := [origin, med, localPref, community];
    assert attrs[1..] == [med, localPref, community] && [med, localPref, community][1..] == [localPref, community];
    assert [localPref, community][1..] == [community] && [community][1..] == [];
    assert Find(attrs, AS_PATH).None? by { FindNone(attrs, AS_PATH); }
    assert Find(attrs, COMMUNITY).Some? by {
      assert attrs[3] in attrs;
      FindNone(attrs, COMMUNITY);
    }
    forall low: nat | 1 <= low <= 3
      ensures CountBetween(attrs, low, COMMUNITY) == if low == 1 then 3 else 2
    {
      assert CountBetween([community], low, COMMUNITY) == 0;
      assert CountBetween([localPref, community], low, COMMUNITY) == 1;
      assert CountBetween([med, localPref, community], low, COMMUNITY) == 2;
    }
    assert Reached(attrs, COPIED, 3) && !Reached(attrs, COPIED, 1);
    CopyTwice(attrs);
  }

  // ---------------------------------------------------------------- iBGP

  /**
   What applying ascending attributes leaves in the record: the octet and the path length
   of the only ORIGIN and AS_PATH.
   */
  lemma {:induction false} AppliedFields(tb: Tiebreak, attrs: seq<Attr>)
    requires Ascending(attrs) && OriginsReadable(attrs) && ApplyAll(tb, attrs).Some?
    ensures Find(attrs, ORIGIN).Some? ==> Find(attrs, ORIGIN).value.value != []
    ensures var t := ApplyAll(tb, attrs).value;
            && t.origin == (match Find(attrs, ORIGIN) case None => tb.origin case Some(a) => a.value[0])
            && (match Find(attrs, AS_PATH)
                case None => t.pathLength == tb.pathLength
                case Some(a) => PathLength(a.value) == Some(t.pathLength))
            && (match Find(attrs, NEXT_HOP) case None => true case Some(a) => |a.value| == 4)
    decreases |attrs|
  {
    FindNone(attrs, ORIGIN);
    if attrs != [] {
      AppliedFields(Apply(tb, attrs[0]).value, attrs[1..]);
      forall a <- attrs[1..] ensures attrs[0].typeCode < a.typeCode {
        var k :| 0 <= k < |attrs[1..]| && attrs[1..][k] == a;
        assert attrs[0].typeCode < attrs[k + 1].typeCode;
      }
      FindNone(attrs[1..], attrs[0].typeCode);
    }
  }

  lemma IbgpGets(attrs: seq<Attr>)
    requires Ascending(attrs) && MandatoryPresent(attrs)
    ensures Scan(attrs, ORIGIN).0 == Find(attrs, ORIGIN)
    ensures Gets(Scan(attrs, ORIGIN).1, [AS_PATH, NEXT_HOP]) == [Find(attrs, AS_PATH), Find(attrs, NEXT_HOP)]
  {
    MandatoryCounts(attrs);
    forall j, i | 0 <= j < i < |EXPORTED| && Find(attrs, EXPORTED[i]).Some?
      ensures i - j <= CountBetween(attrs, EXPORTED[j], EXPORTED[i])
    {
      assert (j, i) in {(0, 1), (0, 2), (1, 2)};
    }
    CursorRefinesSearch(attrs, EXPORTED);
    var gets := Gets(attrs, EXPORTED);
    assert EXPORTED[1..] == [AS_PATH, NEXT_HOP];
    FindsAt(attrs, EXPORTED, 0);
    FindsAt(attrs, EXPORTED, 1);
    FindsAt(attrs, EXPORTED, 2);
    assert gets[1..] == Gets(Scan(attrs, ORIGIN).1, [AS_PATH, NEXT_HOP]);
    assert gets[1..] == [gets[1], gets[2]];
  }

  lemma KeptTwo(a: Attr, b: Attr)
    ensures Kept([Some(a), Some(b)]) == [Canon(a), Canon(b)]
  {
    assert [Some(a), Some(b)][1..] == [Some(b)] && [Some(b)][1..] == [];
    assert Kept([Some(b)]) == [Canon(b)] + Kept([]);
  }

  /** Among ascending attributes a type occurs once, so the search for it finds the one there is. */
  lemma FindIs(attrs: seq<Attr>, a: Attr)
    requires Ascending(attrs) && a in attrs
    ensures Find(attrs, a.typeCode) == Some(a)
  {
    FindNone(attrs, a.typeCode);
    var b := Find(attrs, a.typeCode).value;
    var i, j :| 0 <= i < |attrs| && 0 <= j < |attrs| && attrs[i] == a && attrs[j] == b;
  }

  /** The octets for a peer of the same AS are those of ORIGIN, AS_PATH, NEXT_HOP and LOCAL_PREF, 1, 2, 3 and 5. */
  lemma IbgpWrites(attrs: seq<Attr>, origin: Attr, path: Attr, nextHop: Attr, octet: byte, localPref: uint32)
    requires Ascending(attrs) && origin in attrs && path in attrs && nextHop in attrs
    requires origin.typeCode == 1 && path.typeCode == 2 && nextHop.typeCode == 3
    requires FirstOctet(Scan(attrs, ORIGIN).0, octet)
    ensures IbgpAttrs(attrs, octet, localPref) ==
            [Attr(0x40, 1, [octet]), Canon(path), Canon(nextHop), Attr(0x40, 5, Bytes4(localPref))]
    ensures origin.value != [] ==> octet == origin.value[0]
  {
    FindIs(attrs, origin);
    FindIs(attrs, path);
    FindIs(attrs, nextHop);
    IbgpExportIs(attrs, octet, localPref);
  }

  /** The four attributes written for a peer of the same AS. */
  lemma IbgpExportIs(attrs: seq<Attr>, octet: byte, localPref: uint32)
    requires Ascending(attrs) && MandatoryPresent(attrs)
    ensures Scan(attrs, ORIGIN).0 == Find(attrs, ORIGIN)
    ensures IbgpAttrs(attrs, octet, localPref) ==
            [Attr(WELL_KNOWN_TRANSITIVE, ORIGIN, [octet]),
             Canon(Find(attrs, AS_PATH).value), Canon(Find(attrs, NEXT_HOP).value),
             Attr(WELL_KNOWN_TRANSITIVE, LOCAL_PREF, Bytes4(localPref))]
  {
    IbgpGets(attrs);
    KeptTwo(Find(attrs, AS_PATH).value, Find(attrs, NEXT_HOP).value);
  }

  lemma LoadStored(v: uint32)
    ensures Load32(Bytes4(v)) == Bswap32(v)
  {
  }

  /** Applying the four attributes of an export one after the other. */
  lemma ApplyFour(tb: Tiebreak, o: Attr, p: Attr, n: Attr, l: Attr, count: byte)
    requires o.typeCode == ORIGIN && p.typeCode == AS_PATH && n.typeCode == NEXT_HOP && l.typeCode == LOCAL_PREF
    requires o.value != [] && PathLength(p.value) == Some(count) && |n.value| == |l.value| == 4
    ensures OriginsReadable([o, p, n, l])
    ensures ApplyAll(tb, [o, p, n, l]) ==
            Some(tb.(origin := o.value[0], pathLength := count, localPref := Load32(l.value)))
  {
    assert [o, p, n, l][1..] == [p, n, l] && [p, n, l][1..] == [n, l] && [n, l][1..] == [l] && [l][1..] == [];
    var t1 := tb.(origin := o.value[0]);
    var t2 := t1.(pathLength := count);
    assert Apply(tb, o) == Some(t1) && Apply(t1, p) == Some(t2) && Apply(t2, n) == Some(t2);
    assert ApplyAll(t2, [l]) == Apply(t2, l);
    assert ApplyAll(t2, [n, l]) == ApplyAll(t2, [l]);
    assert ApplyAll(t1, [p, n, l]) == ApplyAll(t2, [n, l]);
  }

  /**
   iBGP export preserves meaning. From ascending attributes that contain the mandatory
   ones and are accepted on import, the octets written frame exactly and, imported by
   a peer, give the same origin and path length as the source; the local preference
   arrives byte-swapped, because import loads it as it lies in memory.
   */
  lemma IbgpKeepsMeaning(attrs: seq<Attr>, octet: byte, tb: Tiebreak, peer: Tiebreak, localPref: uint32)
    requires Ascending(attrs) && MandatoryPresent(attrs) && FirstOctet(Scan(attrs, ORIGIN).0, octet)
    requires OriginsReadable(attrs) && ApplyAll(tb, attrs).Some?
    ensures var out := IbgpAttrs(attrs, octet, localPref);
            var source := ApplyAll(tb, attrs).value;
            && ParseAttrs(Wires(out), 0, |Wires(out)|) == Some(out)
            && OriginsReadable(out)
            && ApplyAll(peer, out) == Some(peer.(origin := source.origin, pathLength := source.pathLength,
                                                 localPref := Bswap32(localPref)))
  {
    AppliedFields(tb, attrs);
    IbgpExportIs(attrs, octet, localPref);
    FindNone(attrs, AS_PATH);
    FindNone(attrs, NEXT_HOP);
    var out, source := IbgpAttrs(attrs, octet, localPref), ApplyAll(tb, attrs).value;
    ParseWires(Wires(out), 0, |Wires(out)|, out) by { assert Wires(out)[0..|Wires(out)|] == Wires(out); }
    LoadStored(localPref);
    ApplyFour(peer, out[0], out[1], out[2], out[3], source.pathLength);
    assert out == [out[0], out[1], out[2], out[3]];
  }

  // ---------------------------------------------------------------- eBGP

  /**
   The path written for an eBGP peer is the old one with the new AS in front exactly
   when every octet repeats four octets later, up to the four octets behind the path.
   */
  lemma PrependIsPrependOnlyIfPeriodic(path: Attr, beyond: seq<byte>, asn: uint32)
    requires |path.value| < 0x1_0000 - 4 && CanPrepend(path) && |beyond| == 4
    ensures Prepended(path, beyond, asn).value == [2, path.value[1] + 1] + Bytes4(asn) + path.value[2..] <==>
            forall k | 2 <= k < |path.value| :: (path.value + beyond)[k] == (path.value + beyond)[k + 4]
  {
    var m, w := path.value + beyond, Prepended(path, beyond, asn).value;
    var intended := [2, path.value[1] + 1] + Bytes4(asn) + path.value[2..];
    assert |w| == |intended|;
    forall i | 6 <= i < |w| ensures w[i] == m[i] && intended[i] == m[i - 4] {
    }
    if w == intended {
      forall k | 2 <= k < |path.value| ensures m[k] == m[k + 4] {
        assert w[k + 4] == intended[k + 4];
      }
    }
    if forall k | 2 <= k < |path.value| :: m[k] == m[k + 4] {
      forall i | 0 <= i < |w| ensures w[i] == intended[i] {
        if i >= 6 { assert m[i - 4] == m[i - 4 + 4]; }
      }
    }
  }

  /**
   A path of one sequence still counts one hop more after it has been prepended to,
   whatever its AS numbers became.
   */
  lemma PrependedLength(path: Attr, beyond: seq<byte>, asn: uint32)
    requires 2 <= |path.value| == 2 + 4 * path.value[1] as int && CanPrepend(path) && |beyond| == 4
    ensures PathLength(path.value) == Some(path.value[1])
    ensures PathLength(Prepended(path, beyond, asn).value) == Some(path.value[1] + 1)
  {
    var v, w := path.value, Prepended(path, beyond, asn).value;
    assert WeightFrom(v, |v|) == Some(0) && WeightFrom(w, |w|) == Some(0);
    assert w[0] == 2 && w[1] == v[1] + 1;
    assert WeightFrom(v, 0) == Some(v[1] as nat);
    assert WeightFrom(w, 0) == Some(w[1] as nat);
  }

  /** A path of one AS comes out with other octets in its place unless they happen to follow it in memory. */
  lemma PrependLosesAs(path: Attr, beyond: seq<byte>, asn: uint32)
    requires |path.value| == 6 && CanPrepend(path) && |beyond| == 4
    ensures Prepended(path, beyond, asn).value == [2, path.value[1] + 1] + Bytes4(asn) + beyond
    ensures Prepended(path, beyond, asn).value != [2, path.value[1] + 1] + Bytes4(asn) + path.value[2..] <==>
            beyond != path.value[2..]
  {
    var start := [2, path.value[1] + 1] + Bytes4(asn);
    assert (path.value + beyond)[6..] == beyond;
    assert (start + beyond)[6..] == beyond && (start + path.value[2..])[6..] == path.value[2..];
  }

  lemma EbgpGets(attrs: seq<Attr>)
    requires Ascending(attrs) && MandatoryPresent(attrs)
    ensures Scan(attrs, ORIGIN).0 == Find(attrs, ORIGIN)
    ensures var (path, rest) := Scan(Scan(attrs, ORIGIN).1, AS_PATH);
            path == Find(attrs, AS_PATH)
            && Gets(rest, [NEXT_HOP, COMMUNITY]) == [Find(attrs, NEXT_HOP), Find(attrs, COMMUNITY)]
  {
    MandatoryMeansNothingSwallowed(attrs);
    var gets, after := Gets(attrs, COPIED), Scan(attrs, ORIGIN).1;
    assert COPIED[1..] == [AS_PATH, NEXT_HOP, COMMUNITY];
    assert [AS_PATH, NEXT_HOP, COMMUNITY][1..] == [NEXT_HOP, COMMUNITY];
    FindsAt(attrs, COPIED, 0);
    FindsAt(attrs, COPIED, 1);
    FindsAt(attrs, COPIED, 2);
    FindsAt(attrs, COPIED, 3);
    var tail := Gets(after, [AS_PATH, NEXT_HOP, COMMUNITY]);
    assert gets == [gets[0]] + tail && tail == [tail[0]] + Gets(Scan(after, AS_PATH).1, [NEXT_HOP, COMMUNITY]);
    assert tail[0] == gets[1] && tail[1] == gets[2] && tail[2] == gets[3];
  }

  /** An export to another AS fails exactly on a path that is no sequence, type 2, of fewer than 255 ASes. */
  lemma EbgpExtends(attrs: seq<Attr>, path: Attr)
    requires Ascending(attrs) && Has(attrs, 1) && Has(attrs, 3) && path in attrs && path.typeCode == 2
    ensures Scan(attrs, ORIGIN).0.Some? && Scan(Scan(attrs, ORIGIN).1, AS_PATH).0 == Some(path)
    ensures PathExtensible(Some(path)) <==> |path.value| >= 2 && path.value[0] == 2 && path.value[1] <= 254
  {
    FindIs(attrs, path);
    FindNone(attrs, 1);
    FindNone(attrs, 3);
    EbgpGets(attrs);
  }

  /**
   The attributes written for a peer of another AS: ORIGIN, the path with AS 42 put in
   front of what lies from its seventh octet on, NEXT_HOP, and COMMUNITY if there is one.
   */
  lemma EbgpWrites(attrs: seq<Attr>, origin: Attr, path: Attr, nextHop: Attr, octet: byte, beyond: seq<byte>)
    requires Ascending(attrs) && origin in attrs && path in attrs && nextHop in attrs
    requires origin.typeCode == 1 && path.typeCode == 2 && nextHop.typeCode == 3
    requires |path.value| < 0x1_0000 - 4 && CanPrepend(path) && |beyond| == 4
    ensures var found := Scan(Scan(attrs, ORIGIN).1, AS_PATH).0; PathBounded(found) && PathExtensible(found)
    ensures var grown := Attr(path.flags, 2, [2, path.value[1] + 1, 0, 0, 0, 42] + (path.value + beyond)[6..]);
            EbgpAttrs(attrs, octet, beyond) ==
            [Attr(0x40, 1, [octet]), Canon(grown), Canon(nextHop)]
            + match Find(attrs, 8) case None => [] case Some(community) => [Canon(community)]
  {
    FindIs(attrs, origin);
    FindIs(attrs, path);
    FindIs(attrs, nextHop);
    EbgpGets(attrs);
    var community := Find(attrs, COMMUNITY);
    var grown := Prepended(path, beyond, EBGP_AS);
    assert Bytes4(EBGP_AS) == [0, 0, 0, 42];
    assert grown == Attr(path.flags, 2, [2, path.value[1] + 1, 0, 0, 0, 42] + (path.value + beyond)[6..]);
    assert [Some(nextHop), community][1..] == [community] && [community][1..] == [];
    assert Kept([community]) == if community.None? then [] else [Canon(community.value)] + Kept([]);
    assert Kept([Some(nextHop), community]) == [Canon(nextHop)] + Kept([community]);
  }

  lemma {:induction false} NothingKept(wanted: seq<byte>)
    ensures Kept(Gets([], wanted)) == []
  {
    if wanted != [] { NothingKept(wanted[1..]); }
  }

  /** The octet more for an empty ORIGIN is reached: an iBGP export writes 11 octets for 3 read. */
  lemma EmptyOriginAddsEight(flags: byte, octet: byte, localPref: uint32)
    requires !Extended(flags)
    ensures var attrs := [Attr(flags, ORIGIN, [])];
            |Wires(attrs)| == 3 && |Wires(IbgpAttrs(attrs, octet, localPref))| == 11
  {
    var attrs, found := [Attr(flags, ORIGIN, [])], Gets([], [AS_PATH, NEXT_HOP]);
    var first := Attr(WELL_KNOWN_TRANSITIVE, ORIGIN, [octet]);
    var last := Attr(WELL_KNOWN_TRANSITIVE, LOCAL_PREF, Bytes4(localPref));
    assert attrs[1..] == [] && Scan(attrs, ORIGIN).1 == [];
    NothingKept([AS_PATH, NEXT_HOP]);
    IbgpWire([], first, found, last);
    WiresOne(attrs[0]);
  }

  /** And an eBGP export writes 6 more than it reads, when the path grows out of a one-octet length besides. */
  lemma EmptyOriginAddsSix(flags: byte, path: Attr, octet: byte, beyond: seq<byte>)
    requires !Extended(flags) && !Extended(path.flags) && path.typeCode == AS_PATH
    requires |path.value| == 252 && CanPrepend(path) && |beyond| == 4
    ensures var attrs := [Attr(flags, ORIGIN, []), path];
            && AllFramed(attrs) && |Wires(attrs)| == 258 && Scan(attrs, ORIGIN).1 == [path]
            && Scan([path], AS_PATH).0 == Some(path)
            && |Wires(EbgpAttrs(attrs, octet, beyond))| == 264
  {
    var attrs := [Attr(flags, ORIGIN, []), path];
    var first := Attr(WELL_KNOWN_TRANSITIVE, ORIGIN, [octet]);
    assert attrs[1..] == [path] && [path][1..] == [];
    WiresOne(path);
    assert Wires(attrs) == Wire(attrs[0]) + Wires([path]);
    NothingKept([NEXT_HOP, COMMUNITY]);
    var grown := Canon(Prepended(path, beyond, EBGP_AS));
    assert EbgpTail([path], beyond) == [grown];
    WiresOne(grown);
    WiresCons(first, [grown]);
  }
}
