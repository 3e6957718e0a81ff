/** Reading the attributes of a route into its tiebreak record. */
module Import {
  import opened Basics
  import opened Nlri
  import opened Attributes
  import opened Export
  import opened Grouping

  const ATTR_SET: byte := 128

  const AS_SET: byte := 1
  const AS_SEQUENCE: byte := 2

  /** What a segment adds to the path length. Type 0 passes the assertion on segment types and adds nothing. */
  function SegmentWeight(kind: byte, hops: byte): nat {
    if kind == AS_SET then 1 else if kind == AS_SEQUENCE then hops else 0
  }

  /**
   The weight of the segments from an offset on, or nothing if a type is unknown or the
   last one does not end the path.
   */
  function WeightFrom(p: seq<byte>, offset: nat): Option<nat>
    decreases |p| - offset
  {
    if offset == |p| then Some(0)
    else if offset + 2 > |p| || p[offset] > 2 then None
    else match WeightFrom(p, offset + 2 + 4 * p[offset + 1] as int)
         case None => None
         case Some(w) => Some(w + SegmentWeight(p[offset], p[offset + 1]))
  }

  function PathLength(p: seq<byte>): Option<byte> {
    match WeightFrom(p, 0)
    case None => None
    case Some(w) => if w < 0x100 then Some(w) else None
  }

  /**
   Counts the path; no result stands for a failed assertion. A header cut off by the end
   fails whatever is read for it.
   */
  method AsPathCount(p: seq<byte>) returns (count: Option<byte>)
    requires |p| <= 4096
    ensures count == PathLength(p)
  {
    var offset: nat, pathCount: nat := 0, 0;
    while offset < |p|
      invariant offset <= |p| + 1022 && pathCount <= offset
      invariant offset > |p| ==> WeightFrom(p, 0).None?
      invariant offset <= |p| ==>
          match WeightFrom(p, offset)
          case None => WeightFrom(p, 0).None?
          case Some(w) => WeightFrom(p, 0) == Some(pathCount + w)
      decreases |p| - offset
    {
      if offset + 1 == |p| || p[offset] > 2 {
        return None;
      }
      pathCount := pathCount + SegmentWeight(p[offset], p[offset + 1]);
      offset := offset + 2 + 4 * p[offset + 1] as int;
    }
    if offset != |p| || pathCount >= 0x100 {
      return None;
    }
    count := Some(pathCount);
  }

  /** A path segment: its kind and its AS numbers. */
  datatype Segment = Segment(kind: byte, hops: seq<uint32>)

  function HopsWire(hops: seq<uint32>): (bs: seq<byte>)
    ensures |bs| == 4 * |hops|
  {
    if hops == [] then [] else Bytes4(hops[0]) + HopsWire(hops[1..])
  }

  ghost predicate ValidPath(segs: seq<Segment>) {
    forall s <- segs :: 1 <= s.kind <= 2 && |s.hops| <= 255
  }

  function PathWire(segs: seq<Segment>): seq<byte>
    requires ValidPath(segs)
  {
    if segs == [] then [] else [segs[0].kind, |segs[0].hops|] + HopsWire(segs[0].hops) + PathWire(segs[1..])
  }

  /** Section 9.1.2.2 of RFC 4271: a set counts as one, a sequence as its ASes. */
  function Hops(segs: seq<Segment>): nat {
    if segs == [] then 0 else (if segs[0].kind == AS_SET then 1 else |segs[0].hops|) + Hops(segs[1..])
  }

  lemma SegmentInPlace(p: seq<byte>, offset: nat, s: Segment, rest: seq<byte>)
    requires offset <= |p| && |s.hops| <= 255 && 1 <= s.kind <= 2
    requires p[offset..] == [s.kind, |s.hops|] + HopsWire(s.hops) + rest
    ensures offset + 2 + 4 * |s.hops| <= |p| && p[offset] == s.kind && p[offset + 1] == |s.hops|
    ensures p[offset + 2 + 4 * |s.hops|..] == rest
  {
    var w := p[offset..];
    assert w[0] == p[offset] && w[1] == p[offset + 1];
    assert w[2 + 4 * |s.hops|..] == p[offset + 2 + 4 * |s.hops|..];
  }

  lemma WeightOfSegment(p: seq<byte>, offset: nat, s: Segment, w: nat)
    requires |s.hops| <= 255 && 1 <= s.kind <= 2 && offset + 2 + 4 * |s.hops| <= |p|
    requires p[offset] == s.kind && p[offset + 1] == |s.hops| && WeightFrom(p, offset + 2 + 4 * |s.hops|) == Some(w)
    ensures WeightFrom(p, offset) == Some(w + if s.kind == AS_SET then 1 else |s.hops|)
  {
    assert offset + 2 + 4 * p[offset + 1] as int == offset + 2 + 4 * |s.hops|;
  }

  lemma {:induction false} WeightOfPath(p: seq<byte>, offset: nat, segs: seq<Segment>)
    requires ValidPath(segs) && offset <= |p| && p[offset..] == PathWire(segs)
    ensures WeightFrom(p, offset) == Some(Hops(segs))
    decreases |segs|
  {
    if segs != [] {
      var s, rest := segs[0], segs[1..];
      assert s in segs && forall t <- rest :: t in segs;
      var next := offset + 2 + 4 * |s.hops|;
      assert next <= |p| && p[offset] == s.kind && p[offset + 1] == |s.hops| && p[next..] == PathWire(rest) by {
        SegmentInPlace(p, offset, s, PathWire(rest));
      }
      WeightOfPath(p, next, rest);
      WeightOfSegment(p, offset, s, Hops(rest));
    }
  }

  /** The path counter implements the standard's path length, and fails exactly on paths longer than an octet holds. */
  lemma PathLengthIsHops(segs: seq<Segment>)
    requires ValidPath(segs)
    ensures PathLength(PathWire(segs)) == if Hops(segs) < 0x100 then Some(Hops(segs)) else None
  {
    assert PathWire(segs)[0..] == PathWire(segs);
    WeightOfPath(PathWire(segs), 0, segs);
  }

  // ---------------------------------------------------------------- attributes

  /**
   One attribute read into the record; no result stands for a failed assertion. Words are
   loaded as they lie in memory.
   */
  function Apply(tb: Tiebreak, a: Attr): Option<Tiebreak>
    requires a.typeCode == ORIGIN ==> a.value != []
  {
    if a.typeCode > 64 then Some(tb)
    else if a.typeCode == ORIGIN then Some(tb.(origin := a.value[0]))
    else if a.typeCode == AS_PATH then
      match PathLength(a.value)
      case None => None
      case Some(n) => Some(tb.(pathLength := n))
    else if a.typeCode == NEXT_HOP then if |a.value| == 4 then Some(tb) else None
    else if a.typeCode == MULTI_EXIT_DISC then
      if |a.value| == 4 then Some(tb.(med := Load32(a.value))) else None
    else if a.typeCode == LOCAL_PREF then
      if |a.value| == 4 then Some(tb.(localPref := Load32(a.value))) else None
    else if LengthAllowed(a.typeCode, |a.value|) then Some(tb)
    else None
  }

  /** The length assertions on the attributes that leave the record alone. */
  predicate LengthAllowed(typeCode: byte, length: nat) {
    if typeCode == COMMUNITY then length % 4 == 0
    else if typeCode == EXTENDED_COMMUNITIES then length % 8 == 0
    else if typeCode == LARGE_COMMUNITY then length % 12 == 0
    else if typeCode == ATOMIC_AGGREGATE then length == 0
    else if typeCode == AGGREGATOR then length == 8
    else if typeCode == AS_PATHLIMIT then length == 5
    else true
  }

  /** A word as a little-endian machine loads it. */
  function Load32(bs: seq<byte>): uint32
    requires |bs| == 4
  {
    bs[0] as int + 0x100 * (bs[1] as int + 0x100 * (bs[2] as int + 0x100 * bs[3] as int))
  }

  ghost predicate OriginsReadable(attrs: seq<Attr>) {
    forall a <- attrs | a.typeCode == ORIGIN :: a.value != []
  }

  function ApplyAll(tb: Tiebreak, attrs: seq<Attr>): Option<Tiebreak>
    requires OriginsReadable(attrs)
    decreases |attrs|
  {
    if attrs == [] then Some(tb)
    else match Apply(tb, attrs[0])
         case None => None
         case Some(tb') => ApplyAll(tb', attrs[1..])
  }

  method ParseAttribute(tb: Tiebreak, a: Attr) returns (tb': Option<Tiebreak>)
    requires (a.typeCode == ORIGIN ==> a.value != []) && |a.value| <= MAX_MESSAGE
    ensures tb' == Apply(tb, a)
  {
    var length := |a.value|;
    if a.typeCode > 64 && a.typeCode != ATTR_SET {
      return Some(tb);
    }
    var t, ok := tb, true;
    match a.typeCode {
      case ORIGIN => t := t.(origin := a.value[0]);
      case AS_PATH =>
        var count := AsPathCount(a.value);
        ok := count.Some?;
        if ok {
          t := t.(pathLength := count.value);
        }
      case NEXT_HOP => ok := 4 == length;
      case MULTI_EXIT_DISC =>
        ok := 4 == length;
        if ok {
          t := t.(med := Load32(a.value));
        }
      case LOCAL_PREF =>
        ok := 4 == length;
        if ok {
          t := t.(localPref := Load32(a.value));
        }
      case COMMUNITY => ok := 0 == length % 4;
      case EXTENDED_COMMUNITIES => ok := 0 == length % 8;
      case LARGE_COMMUNITY => ok := 0 == length % 12;
      case ATOMIC_AGGREGATE => ok := 0 == length;
      case AGGREGATOR => ok := 8 == length;
      case AS_PATHLIMIT => ok := 5 == length;
      case _ =>
    }
    tb' := if ok then Some(t) else None;
  }

  /** A type whose attribute has one length only: NEXT_HOP, MED, LOCAL_PREF, the aggregates, AS_PATHLIMIT. */
  predicate Fixed(typeCode: byte, length: nat) {
    (typeCode in {3, 4, 5} && length == 4) || (typeCode == 6 && length == 0) || (typeCode == 7 && length == 8)
    || (typeCode == 21 && length == 5)
  }

  /** A type whose attribute is a list of items of one size: communities, extended ones, and large ones. */
  predicate Listed(typeCode: byte, length: nat) {
    (typeCode == 8 && length % 4 == 0) || (typeCode == 16 && length % 8 == 0) || (typeCode == 32 && length % 12 == 0)
  }

  const CHECKED: set<byte> := {3, 4, 5, 6, 7, 21, 8, 16, 32}

  /**
   What an attribute can do to the record. It is refused exactly if its type has a length
   rule that it breaks or its path is malformed or too long; otherwise it changes the one
   field of its type and no other.
   */
  lemma AttributeEffect(tb: Tiebreak, a: Attr)
    requires a.typeCode == ORIGIN ==> a.value != []
    ensures Apply(tb, a).None? <==>
              || (a.typeCode == 2 && PathLength(a.value).None?)
              || (a.typeCode in CHECKED && !Fixed(a.typeCode, |a.value|) && !Listed(a.typeCode, |a.value|))
    ensures Apply(tb, a).Some? ==>
              var t := Apply(tb, a).value;
              && (t == if a.typeCode == 1 then tb.(origin := t.origin)
                       else if a.typeCode == 2 then tb.(pathLength := t.pathLength)
                       else if a.typeCode == 4 then tb.(med := t.med)
                       else if a.typeCode == 5 then tb.(localPref := t.localPref) else tb)
              && (a.typeCode == 1 ==> t.origin == a.value[0])
              && (a.typeCode == 2 ==> PathLength(a.value) == Some(t.pathLength))
              && (a.typeCode == 4 ==> t.med == Load32(a.value))
              && (a.typeCode == 5 ==> t.localPref == Load32(a.value))
  {
  }

  /** The last attribute of a type. */
  function FindLast(attrs: seq<Attr>, typeCode: byte): (found: Option<Attr>)
    ensures found.Some? ==> found.value in attrs && found.value.typeCode == typeCode
  {
    if attrs == [] then None
    else
      var n := |attrs| - 1;
      if attrs[n].typeCode == typeCode then Some(attrs[n]) else FindLast(attrs[..n], typeCode)
  }

  lemma {:induction false} ApplySnoc(tb: Tiebreak, attrs: seq<Attr>, a: Attr)
    requires OriginsReadable(attrs + [a])
    ensures OriginsReadable(attrs)
    ensures ApplyAll(tb, attrs + [a]) == match ApplyAll(tb, attrs) case None => None case Some(t) => Apply(t, a)
    decreases |attrs|
  {
    assert a in attrs + [a] && forall b <- attrs :: b in attrs + [a];
    if attrs == [] {
      assert attrs + [a] == [a] && [a][1..] == [];
    } else {
      assert (attrs + [a])[1..] == attrs[1..] + [a] && (attrs + [a])[0] == attrs[0];
      if Apply(tb, attrs[0]).Some? { ApplySnoc(Apply(tb, attrs[0]).value, attrs[1..], a); }
    }
  }

  /** The record that these attributes leave: of each type that counts, 1, 2, 4 and 5, the last one says it. */
  function LastSays(tb: Tiebreak, attrs: seq<Attr>): Tiebreak
    requires OriginsReadable(attrs)
  {
    var o, p, m, l := FindLast(attrs, 1), FindLast(attrs, 2), FindLast(attrs, 4), FindLast(attrs, 5);
    tb.(origin := if o.Some? then o.value.value[0] else tb.origin,
        pathLength := if p.Some? && PathLength(p.value.value).Some? then PathLength(p.value.value).value
                      else tb.pathLength,
        med := if m.Some? && |m.value.value| == 4 then Load32(m.value.value) else tb.med,
        localPref := if l.Some? && |l.value.value| == 4 then Load32(l.value.value) else tb.localPref)
  }

  /**
   Attributes in any order, repeated or not, are refused exactly if one of them is, and
   otherwise leave what the last one of each type says.
   */
  lemma {:induction false} AppliedLast(tb: Tiebreak, attrs: seq<Attr>)
    requires OriginsReadable(attrs)
    ensures ApplyAll(tb, attrs).Some? <==> forall a <- attrs :: Apply(tb, a).Some?
    ensures ApplyAll(tb, attrs).Some? ==> ApplyAll(tb, attrs).value == LastSays(tb, attrs)
    decreases |attrs|
  {
    if attrs != [] {
      var n := |attrs| - 1;
      var before, a := attrs[..n], attrs[n];
      assert attrs == before + [a];
      ApplySnoc(tb, before, a);
      AppliedLast(tb, before);
      AttributeEffect(tb, a);
      assert a in attrs;
      if ApplyAll(tb, before).Some? { AttributeEffect(ApplyAll(tb, before).value, a); }
    }
  }

  lemma TwoCommute(tb: Tiebreak, a: Attr, b: Attr, post: seq<Attr>)
    requires a.typeCode != b.typeCode && OriginsReadable([a, b] + post) && OriginsReadable([b, a] + post)
    ensures ApplyAll(tb, [a, b] + post) == ApplyAll(tb, [b, a] + post)
  {
    var xs, ys := [a, b] + post, [b, a] + post;
    assert a == xs[0] && b == ys[0];
    assert xs[1..] == [b] + post && ys[1..] == [a] + post;
    assert ([b] + post)[1..] == post && ([a] + post)[1..] == post;
  }

  /** Neighbours of different types can change places anywhere in the list, failures included: order never matters. */
  lemma {:induction false} AttributesCommute(tb: Tiebreak, pre: seq<Attr>, a: Attr, b: Attr, post: seq<Attr>)
    requires a.typeCode != b.typeCode
    requires OriginsReadable(pre + ([a, b] + post)) && OriginsReadable(pre + ([b, a] + post))
    ensures ApplyAll(tb, pre + ([a, b] + post)) == ApplyAll(tb, pre + ([b, a] + post))
    decreases |pre|
  {
    var xs, ys := pre + ([a, b] + post), pre + ([b, a] + post);
    if pre == [] {
      assert xs == [a, b] + post && ys == [b, a] + post;
      TwoCommute(tb, a, b, post);
    } else {
      assert xs[1..] == pre[1..] + ([a, b] + post) && ys[1..] == pre[1..] + ([b, a] + post);
      assert xs[0] == ys[0] == pre[0] && xs[0] in xs;
      if Apply(tb, pre[0]).Some? { AttributesCommute(Apply(tb, pre[0]).value, pre[1..], a, b, post); }
    }
  }

  /** Reads attribute after attribute up to the limit, which a well-framed string meets exactly. */
  method ParseAttributes(memory: seq<byte>, limit: nat, tb: Tiebreak) returns (tb': Option<Tiebreak>)
    requires WellFramed(memory, limit, 0) && 0 < limit <= 4096 && OriginsReadable(Rest(memory, limit, 0))
    ensures tb' == ApplyAll(tb, Rest(memory, limit, 0))
  {
    var c := Cursor(0, 0, 0, 0, None);
    tb' := Some(tb);
    while c.r < limit
      invariant WellFramed(memory, limit, c.r) && OriginsReadable(Rest(memory, limit, c.r)) && tb'.Some?
      invariant ApplyAll(tb'.value, Rest(memory, limit, c.r)) == ApplyAll(tb, Rest(memory, limit, 0))
      decreases limit - c.r
    {
      ghost var before := Rest(memory, limit, c.r);
      c := NextAttribute(memory, limit, c);
      var a := Found(memory, c).value;
      assert a == before[0] && before[1..] == Rest(memory, limit, c.r);
      tb' := ParseAttribute(tb'.value, a);
      if tb'.None? {
        return;
      }
    }
  }
}
