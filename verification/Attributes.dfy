/** Path attributes as lists, their wire form, and the one-pass cursor that projects them. */
module Attributes {
  import opened Basics
  import opened Nlri

  const ORIGIN: byte := 1
  const AS_PATH: byte := 2
  const NEXT_HOP: byte := 3
  const MULTI_EXIT_DISC: byte := 4
  const LOCAL_PREF: byte := 5
  const ATOMIC_AGGREGATE: byte := 6
  const AGGREGATOR: byte := 7
  const COMMUNITY: byte := 8
  const EXTENDED_COMMUNITIES: byte := 16
  const AS_PATHLIMIT: byte := 21
  const LARGE_COMMUNITY: byte := 32

  /** A value short enough for a two-octet length. */
  type octets = v: seq<byte> | |v| < 0x1_0000

  datatype Attr = Attr(flags: byte, typeCode: byte, value: octets)

  /** Bit 0x10 of the flags: the length has two octets. */
  predicate Extended(flags: byte) { flags / 0x10 % 2 == 1 }

  function SetExtended(flags: byte): byte { if Extended(flags) then flags else flags + 0x10 }

  function ClearExtended(flags: byte): byte { if Extended(flags) then flags - 0x10 else flags }

  predicate Framed(a: Attr) {
    Extended(a.flags) || |a.value| < 0x100
  }

  /** The length octets announced by the flags. */
  function LengthWire(flags: byte, length: uint16): seq<byte>
    requires Extended(flags) || length < 0x100
  {
    if Extended(flags) then Bytes2(length) else [length]
  }

  function Wire(a: Attr): (bs: seq<byte>)
    requires Framed(a)
    ensures |bs| == |a.value| + if Extended(a.flags) then 4 else 3
  {
    [a.flags, a.typeCode] + LengthWire(a.flags, |a.value|) + a.value
  }

  ghost predicate AllFramed(attrs: seq<Attr>) { forall a <- attrs :: Framed(a) }

  function Wires(attrs: seq<Attr>): seq<byte>
    requires AllFramed(attrs)
  {
    if attrs == [] then [] else Wire(attrs[0]) + Wires(attrs[1..])
  }

  /** Does a complete attribute lie at `r`, in front of `limit`? */
  predicate StartsAttr(m: seq<byte>, r: nat, limit: nat)
    requires limit <= |m|
  {
    && r + 3 <= limit
    && (Extended(m[r]) ==> r + 4 <= limit)
    && ValueAt(m, r) + LengthAt(m, r) <= limit
  }

  /** Where the value of the attribute at `r` starts. */
  function ValueAt(m: seq<byte>, r: nat): (here: nat)
    requires r < |m|
    ensures r + 3 <= here <= r + 4
  {
    if Extended(m[r]) then r + 4 else r + 3
  }

  /** The length that the header at `r` announces. */
  function LengthAt(m: seq<byte>, r: nat): uint16
    requires r + 3 <= |m| && ValueAt(m, r) <= |m|
  {
    if Extended(m[r]) then 0x100 * m[r + 2] as int + m[r + 3] else m[r + 2]
  }

  function AttrAt(m: seq<byte>, r: nat, limit: nat): (a: Attr)
    requires limit <= |m| && StartsAttr(m, r, limit)
    ensures Framed(a)
  {
    Attr(m[r], m[r + 1], m[ValueAt(m, r)..ValueAt(m, r) + LengthAt(m, r)])
  }

  /** The attributes between two places of a string, or nothing if it is not well framed there. */
  function ParseAttrs(m: seq<byte>, r: nat, limit: nat): Option<seq<Attr>>
    requires limit <= |m|
    decreases limit - r
  {
    if r == limit then Some([])
    else if !StartsAttr(m, r, limit) then None
    else match ParseAttrs(m, ValueAt(m, r) + LengthAt(m, r), limit)
         case None => None
         case Some(rest) => Some([AttrAt(m, r, limit)] + rest)
  }

  /** Where the octets of an attribute lie, it is found. */
  lemma AttrInPlace(m: seq<byte>, r: nat, limit: nat, a: Attr)
    requires Framed(a) && r + |Wire(a)| <= limit <= |m| && m[r..r + |Wire(a)|] == Wire(a)
    ensures StartsAttr(m, r, limit) && AttrAt(m, r, limit) == a
    ensures ValueAt(m, r) + LengthAt(m, r) == r + |Wire(a)|
  {
    var w := Wire(a);
    forall k | 0 <= k < |w| ensures w[k] == m[r + k] {}
    assert w[0] == a.flags && w[1] == a.typeCode;
    var h := if Extended(a.flags) then 4 else 3;
    assert w[h..] == a.value;
    if Extended(a.flags) {
      assert w[2] == |a.value| / 0x100 && w[3] == |a.value| % 0x100;
    } else {
      assert w[2] == |a.value|;
    }
    forall k | 0 <= k < |a.value| ensures m[r + h + k] == a.value[k] {
      assert w[h + k] == a.value[k];
    }
  }

  lemma SplitSlice(m: seq<byte>, r: nat, limit: nat, x: seq<byte>, y: seq<byte>)
    requires r <= limit <= |m| && m[r..limit] == x + y
    ensures r + |x| <= limit && m[r..r + |x|] == x && m[r + |x|..limit] == y
  {
    var w := m[r..limit];
    assert |w| == |x| + |y|;
    forall k | 0 <= k < |x| ensures m[r + k] == x[k] { assert w[k] == m[r + k]; }
    forall k | 0 <= k < |y| ensures m[r + |x| + k] == y[k] { assert w[|x| + k] == m[r + |x| + k]; }
  }

  lemma {:induction false} ParseWires(m: seq<byte>, r: nat, limit: nat, attrs: seq<Attr>)
    requires AllFramed(attrs) && r <= limit <= |m| && m[r..limit] == Wires(attrs)
    ensures ParseAttrs(m, r, limit) == Some(attrs)
    decreases |attrs|
  {
    if attrs != [] {
      var next := r + |Wire(attrs[0])|;
      SplitSlice(m, r, limit, Wire(attrs[0]), Wires(attrs[1..]));
      AttrInPlace(m, r, limit, attrs[0]);
      ParseWires(m, next, limit, attrs[1..]);
      assert attrs == [attrs[0]] + attrs[1..];
    }
  }

  lemma WireInPlace(m: seq<byte>, r: nat, limit: nat)
    requires limit <= |m| && StartsAttr(m, r, limit)
    ensures m[r..ValueAt(m, r) + LengthAt(m, r)] == Wire(AttrAt(m, r, limit))
  {
    var a, here, n := AttrAt(m, r, limit), ValueAt(m, r), LengthAt(m, r);
    assert m[r..here] == [a.flags, a.typeCode] + LengthWire(a.flags, n);
    assert m[r..here + n] == m[r..here] + m[here..here + n];
  }

  lemma WiresCons(a: Attr, rest: seq<Attr>)
    requires Framed(a) && AllFramed(rest)
    ensures AllFramed([a] + rest) && Wires([a] + rest) == Wire(a) + Wires(rest)
  {
    assert ([a] + rest)[1..] == rest;
  }

  lemma {:induction false} WiresOfParse(m: seq<byte>, r: nat, limit: nat)
    requires r <= limit <= |m| && ParseAttrs(m, r, limit).Some?
    ensures AllFramed(ParseAttrs(m, r, limit).value) && Wires(ParseAttrs(m, r, limit).value) == m[r..limit]
    decreases limit - r
  {
    if r < limit {
      var next := ValueAt(m, r) + LengthAt(m, r);
      WiresOfParse(m, next, limit);
      WireInPlace(m, r, limit);
      WiresCons(AttrAt(m, r, limit), ParseAttrs(m, next, limit).value);
      assert m[r..limit] == m[r..next] + m[next..limit];
    }
  }

  /** The same attribute with the length form its length calls for. */
  function Canon(a: Attr): (c: Attr)
    ensures Framed(c)
  {
    a.(flags := if |a.value| < 0x100 then ClearExtended(a.flags) else SetExtended(a.flags))
  }

  // ---------------------------------------------------------------- the cursor

  /**
   One `get`: skips attributes of smaller type, then takes the next one. If that one has
   a larger type it is lost: it is not returned and the cursor has moved past it.
   */
  function Scan(attrs: seq<Attr>, wanted: byte): (Option<Attr>, seq<Attr>) {
    if attrs == [] then (None, [])
    else if attrs[0].typeCode < wanted then Scan(attrs[1..], wanted)
    else (if attrs[0].typeCode == wanted then Some(attrs[0]) else None, attrs[1..])
  }

  /** A sequence of `get` calls sharing one cursor. */
  function Gets(attrs: seq<Attr>, wanted: seq<byte>): (found: seq<Option<Attr>>)
    ensures |found| == |wanted|
    decreases |wanted|
  {
    if wanted == [] then []
    else var (first, rest) := Scan(attrs, wanted[0]); [first] + Gets(rest, wanted[1..])
  }

  /** An independent search from the start. */
  function Find(attrs: seq<Attr>, wanted: byte): Option<Attr> {
    if attrs == [] then None
    else if attrs[0].typeCode == wanted then Some(attrs[0])
    else Find(attrs[1..], wanted)
  }

  function Finds(attrs: seq<Attr>, wanted: seq<byte>): (found: seq<Option<Attr>>)
    ensures |found| == |wanted|
  {
    if wanted == [] then [] else [Find(attrs, wanted[0])] + Finds(attrs, wanted[1..])
  }

  ghost predicate Ascending(attrs: seq<Attr>) {
    forall i, j | 0 <= i < j < |attrs| :: attrs[i].typeCode < attrs[j].typeCode
  }

  ghost predicate Increasing(types: seq<byte>) {
    forall i, j | 0 <= i < j < |types| :: types[i] < types[j]
  }

  /** How many attributes have a type in [low, high)? */
  function CountBetween(attrs: seq<Attr>, low: int, high: int): nat {
    if attrs == [] then 0
    else CountBetween(attrs[1..], low, high) + if low <= attrs[0].typeCode < high then 1 else 0
  }

  /**
   No wanted attribute can be swallowed: before each wanted type that is present there
   are, from every earlier wanted type on, at least as many attributes as `get` calls.
   */
  ghost predicate NothingSwallowed(attrs: seq<Attr>, wanted: seq<byte>) {
    forall j, i | 0 <= j < i < |wanted| && Find(attrs, wanted[i]).Some? ::
      i - j <= CountBetween(attrs, wanted[j], wanted[i])
  }

  /** Is the i-th wanted type present, with enough attributes in front of it for the `get` calls before? */
  ghost predicate Reached(attrs: seq<Attr>, wanted: seq<byte>, i: nat)
    requires i < |wanted|
  {
    && Find(attrs, wanted[i]).Some?
    && forall j | 0 <= j < i :: i - j <= CountBetween(attrs, wanted[j], wanted[i])
  }

  lemma {:induction false} CountAdds(attrs: seq<Attr>, low: int, mid: int, high: int)
    requires low <= mid <= high
    ensures CountBetween(attrs, low, high) == CountBetween(attrs, low, mid) + CountBetween(attrs, mid, high)
  {
    if attrs != [] { CountAdds(attrs[1..], low, mid, high); }
  }

  lemma {:induction false} CountNone(attrs: seq<Attr>, low: int, high: int)
    requires forall a <- attrs :: high <= a.typeCode
    ensures CountBetween(attrs, low, high) == 0
  {
    if attrs != [] {
      assert attrs[0] in attrs;
      forall a <- attrs[1..] ensures high <= a.typeCode { assert a in attrs; }
      CountNone(attrs[1..], low, high);
    }
  }

  lemma {:induction false} FindNone(attrs: seq<Attr>, wanted: byte)
    ensures Find(attrs, wanted).None? <==> forall a <- attrs :: a.typeCode != wanted
    ensures Find(attrs, wanted).Some? ==>
            Find(attrs, wanted).value in attrs && Find(attrs, wanted).value.typeCode == wanted
  {
    if attrs != [] { FindNone(attrs[1..], wanted); }
  }

  lemma {:induction false} FindsSkip(attrs: seq<Attr>, wanted: seq<byte>)
    requires attrs != [] && attrs[0].typeCode !in wanted
    ensures Finds(attrs, wanted) == Finds(attrs[1..], wanted)
  {
    if wanted != [] {
      assert wanted[0] in wanted;
      forall w <- wanted[1..] ensures w in wanted {}
      FindsSkip(attrs, wanted[1..]);
    }
  }

  lemma {:induction false} FindsAt(attrs: seq<Attr>, wanted: seq<byte>, i: nat)
    requires i < |wanted|
    ensures Finds(attrs, wanted)[i] == Find(attrs, wanted[i])
  {
    if i > 0 { FindsAt(attrs, wanted[1..], i - 1); }
  }

  /** A `get` only ever returns an attribute that is still in front of the cursor. */
  lemma {:induction false} GetsAt(attrs: seq<Attr>, wanted: seq<byte>, i: nat)
    requires i < |wanted| && forall a <- attrs :: a.typeCode != wanted[i]
    ensures Gets(attrs, wanted)[i] == None
    decreases |wanted|
  {
    ScanFacts(attrs, wanted[0]);
    if i > 0 {
      GetsAt(Scan(attrs, wanted[0]).1, wanted[1..], i - 1);
    }
  }

  lemma {:induction false} ScanFacts(attrs: seq<Attr>, wanted: byte)
    ensures forall a <- Scan(attrs, wanted).1 :: a in attrs
    ensures Scan(attrs, wanted).0.Some? ==>
            Scan(attrs, wanted).0.value in attrs && Scan(attrs, wanted).0.value.typeCode == wanted
  {
    if attrs != [] && attrs[0].typeCode < wanted {
      ScanFacts(attrs[1..], wanted);
    }
  }

  /** An attribute below every wanted type plays no part. */
  lemma ReachedSkip(attrs: seq<Attr>, wanted: seq<byte>, i: nat)
    requires attrs != [] && Increasing(wanted) && i < |wanted| && attrs[0].typeCode < wanted[0]
    ensures Reached(attrs, wanted, i) <==> Reached(attrs[1..], wanted, i)
    ensures Find(attrs, wanted[i]) == Find(attrs[1..], wanted[i])
  {
    forall j | 0 <= j < i
      ensures CountBetween(attrs, wanted[j], wanted[i]) == CountBetween(attrs[1..], wanted[j], wanted[i])
    {
    }
  }

  /** The first of ascending attributes has the smallest type. */
  lemma FirstIsSmallest(attrs: seq<Attr>, low: int)
    requires attrs != [] && Ascending(attrs) && low <= attrs[0].typeCode
    ensures forall a <- attrs :: low <= a.typeCode
    ensures forall a <- attrs[1..] :: attrs[0].typeCode < a.typeCode
  {
    forall a <- attrs ensures low <= a.typeCode {
      var k :| 0 <= k < |attrs| && attrs[k] == a;
    }
    forall a <- attrs[1..] ensures attrs[0].typeCode < a.typeCode {
      var k :| 0 <= k < |attrs[1..]| && attrs[1..][k] == a;
      assert attrs[k + 1] == a;
    }
  }

  /** After a `get` that took the first attribute, a later wanted one is reached as it was before. */
  lemma ReachedTake(attrs: seq<Attr>, wanted: seq<byte>, i: nat)
    requires attrs != [] && Ascending(attrs) && Increasing(wanted) && 0 < i < |wanted|
    requires wanted[0] <= attrs[0].typeCode
    ensures Reached(attrs, wanted, i) <==> Reached(attrs[1..], wanted[1..], i - 1)
    ensures Reached(attrs, wanted, i) ==> Find(attrs, wanted[i]) == Find(attrs[1..], wanted[i])
  {
    var rest, ws, t := attrs[1..], wanted[1..], attrs[0].typeCode;
    FirstIsSmallest(attrs, t);
    FindNone(rest, wanted[i]);
    if wanted[i] <= t {
      CountNone(attrs, wanted[0], wanted[i]);
      assert !Reached(attrs, wanted, i) && Find(rest, wanted[i]).None?;
    } else {
      forall j | 0 < j < i
        ensures t < wanted[j] ==> CountBetween(attrs, wanted[j], wanted[i]) == CountBetween(rest, ws[j - 1], ws[i - 1])
        ensures t >= wanted[j] ==>
                  CountBetween(attrs, wanted[0], wanted[i]) == CountBetween(rest, ws[j - 1], ws[i - 1]) + 1
      {
        CountAdds(attrs, wanted[0], wanted[j], wanted[i]);
        if t >= wanted[j] { CountNone(attrs, wanted[0], wanted[j]); }
      }
      CountAdds(rest, wanted[0], ws[0], wanted[i]);
    }
  }

  /**
   What the i-th of a series of `get` calls returns: the attribute an independent search
   finds, if it is reached at all.
   */
  lemma {:induction false} GetsExactly(attrs: seq<Attr>, wanted: seq<byte>, i: nat)
    requires Ascending(attrs) && Increasing(wanted) && i < |wanted|
    ensures Gets(attrs, wanted)[i] == if Reached(attrs, wanted, i) then Find(attrs, wanted[i]) else None
    decreases |attrs| + |wanted|
  {
    if attrs == [] {
      GetsAt(attrs, wanted, i);
    } else if attrs[0].typeCode < wanted[0] {
      ReachedSkip(attrs, wanted, i);
      GetsExactly(attrs[1..], wanted, i);
    } else if i == 0 {
      FirstIsSmallest(attrs, wanted[0]);
      FindNone(attrs, wanted[0]);
    } else {
      ReachedTake(attrs, wanted, i);
      GetsExactly(attrs[1..], wanted[1..], i - 1);
    }
  }

  /**
   The one-pass cursor refines independent searches exactly when nothing wanted is
   swallowed, for all attributes in ascending order and all increasing requests.
   */
  lemma CursorRefinesSearch(attrs: seq<Attr>, wanted: seq<byte>)
    requires Ascending(attrs) && Increasing(wanted)
    ensures Gets(attrs, wanted) == Finds(attrs, wanted) <==> NothingSwallowed(attrs, wanted)
  {
    forall i: nat | i < |wanted|
      ensures Gets(attrs, wanted)[i] == Finds(attrs, wanted)[i] <==>
              (Find(attrs, wanted[i]).Some? ==> Reached(attrs, wanted, i))
    {
      GetsExactly(attrs, wanted, i);
      FindsAt(attrs, wanted, i);
    }
    if !NothingSwallowed(attrs, wanted) {
      var j, i :| 0 <= j < i < |wanted| && Find(attrs, wanted[i]).Some?
        && CountBetween(attrs, wanted[j], wanted[i]) < i - j;
      assert Gets(attrs, wanted)[i] != Finds(attrs, wanted)[i];
    } else {
      forall i: nat | i < |wanted| ensures Gets(attrs, wanted)[i] == Finds(attrs, wanted)[i] {}
    }
  }

  /** Without an ORIGIN the search for it swallows the path that comes first. */
  lemma PathSwallowed(path: Attr)
    requires path.typeCode == AS_PATH
    ensures Gets([path], [ORIGIN, AS_PATH]) == [None, None]
    ensures Finds([path], [ORIGIN, AS_PATH]) == [None, Some(path)]
    ensures !NothingSwallowed([path], [ORIGIN, AS_PATH])
  {
    var wanted := [ORIGIN, AS_PATH];
    assert [path][1..] == [];
    GetsExactly([path], wanted, 0);
    GetsExactly([path], wanted, 1);
    FindsAt([path], wanted, 0);
    FindsAt([path], wanted, 1);
    assert CountBetween([path], wanted[0], wanted[1]) == 0;
  }
}
