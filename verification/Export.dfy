/** The serializers: a cursor over the attributes of a route, a cursor into the output buffer, and what they copy. */
module Export {
  import opened Basics
  import opened Prefixes
  import opened Nlri
  import opened Attributes

  const WELL_KNOWN_TRANSITIVE: byte := 0x40
  const EBGP_AS: uint32 := 42
  const MAX_MESSAGE: nat := 4096

  /** A word as a little-endian machine stores it. */
  function Store32(w: uint32): (bs: seq<byte>)
    ensures |bs| == 4
  {
    [w % 0x100, w / 0x100 % 0x100, w / 0x100 / 0x100 % 0x100, w / 0x100 / 0x100 / 0x100]
  }

  lemma LowOctet(b: nat, rest: nat)
    requires b < 0x100
    ensures (b + 0x100 * rest) % 0x100 == b && (b + 0x100 * rest) / 0x100 == rest
  {
  }

  /** Storing a byte-swapped word puts the most significant octet first. */
  lemma StoreSwapped(v: uint32)
    ensures Store32(Bswap32(v)) == Bytes4(v)
  {
    var bs := Bytes4(v);
    var b0: nat, b1: nat, b2: nat, b3: nat := bs[0], bs[1], bs[2], bs[3];
    assert Bswap32(v) == b0 + 0x100 * (b1 + 0x100 * (b2 + 0x100 * b3));
    LowOctet(b0, b1 + 0x100 * (b2 + 0x100 * b3));
    LowOctet(b1, b2 + 0x100 * b3);
    LowOctet(b2, b3);
  }

  const COPIED: seq<byte> := [ORIGIN, AS_PATH, NEXT_HOP, COMMUNITY]
  const EXPORTED: seq<byte> := [ORIGIN, AS_PATH, NEXT_HOP]

  /** What `copy` writes for the outcome of a `get`. */
  function WireIfFound(found: Option<Attr>): seq<byte> {
    if found.None? then [] else Wire(Canon(found.value))
  }

  /** The attributes that a sequence of get-and-copy pairs writes. */
  function Kept(found: seq<Option<Attr>>): (attrs: seq<Attr>)
    ensures AllFramed(attrs)
  {
    if found == [] then []
    else if found[0].None? then Kept(found[1..])
    else [Canon(found[0].value)] + Kept(found[1..])
  }

  lemma WiresKept(found: seq<Option<Attr>>)
    requires found != []
    ensures Wires(Kept(found)) == WireIfFound(found[0]) + Wires(Kept(found[1..]))
  {
    if found[0].Some? {
      WiresCons(Canon(found[0].value), Kept(found[1..]));
    }
  }

  function CopyAttrs(attrs: seq<Attr>): seq<Attr> { Kept(Gets(attrs, COPIED)) }

  /** The path starts with a sequence segment that has room for one more AS. */
  predicate CanPrepend(path: Attr) {
    2 <= |path.value| && path.value[0] == 2 && path.value[1] < 255
  }

  /** The path attribute as written, given the four octets behind it in memory. */
  function Prepended(path: Attr, beyond: seq<byte>, asn: uint32): (a: Attr)
    requires |path.value| < 0x1_0000 - 4 && CanPrepend(path) && |beyond| == 4
    ensures |a.value| == |path.value| + 4
  {
    path.(value := [2, path.value[1] + 1] + Bytes4(asn) + (path.value + beyond)[6..])
  }

  /** The registers of the serializer: the cursor into the attributes and what the last `get` left behind. */
  datatype Cursor = Cursor(r: nat, flags: byte, typeCode: byte, attrLength: uint16, attrPtr: Option<nat>)

  ghost predicate WellFramed(memory: seq<byte>, limit: nat, r: nat) {
    r <= limit <= |memory| && ParseAttrs(memory, r, limit).Some?
  }

  /** The attributes in front of the cursor. */
  ghost function Rest(memory: seq<byte>, limit: nat, r: nat): seq<Attr>
    requires WellFramed(memory, limit, r)
  {
    ParseAttrs(memory, r, limit).value
  }

  ghost predicate InBounds(memory: seq<byte>, c: Cursor) {
    c.attrPtr.Some? ==> c.attrPtr.value + c.attrLength <= |memory|
  }

  /** The outcome of the last `get`. */
  function Found(memory: seq<byte>, c: Cursor): Option<Attr>
    requires InBounds(memory, c)
  {
    if c.attrPtr.None? then None
    else Some(Attr(c.flags, c.typeCode, memory[c.attrPtr.value..c.attrPtr.value + c.attrLength]))
  }

  /** Re-encoding never lengthens an attribute. */
  lemma CanonNotLonger(a: Attr)
    ensures |Wire(Canon(a))| <= |a.value| + if Extended(a.flags) || |a.value| >= 0x100 then 4 else 3
  {
  }

  /** Reads the header at the cursor and moves past the value behind it. */
  method NextAttribute(memory: seq<byte>, limit: nat, c: Cursor) returns (c': Cursor)
    requires WellFramed(memory, limit, c.r) && c.r < limit
    ensures WellFramed(memory, limit, c'.r) && c.r < c'.r && c'.attrPtr.Some? && InBounds(memory, c')
    ensures c'.attrPtr.value + c'.attrLength <= limit
    ensures Rest(memory, limit, c.r) == [Found(memory, c').value] + Rest(memory, limit, c'.r)
    ensures c.r + |WireIfFound(Found(memory, c'))| <= c'.r
  {
    var r := c.r;
    var flags, typeCode := memory[r], memory[r + 1];
    var attrLength: uint16 := memory[r + 2];
    r := r + 3;
    if Extended(flags) {
      attrLength := 0x100 * attrLength as int + memory[r];
      r := r + 1;
    }
    c' := Cursor(r + attrLength, flags, typeCode, attrLength, Some(r));
    assert Found(memory, c') == Some(AttrAt(memory, c.r, limit));
  }

  /** Advances over attributes of smaller type; the next one is returned, or passed and lost. */
  method Get(memory: seq<byte>, limit: nat, c: Cursor, wanted: byte) returns (c': Cursor)
    requires WellFramed(memory, limit, c.r)
    ensures WellFramed(memory, limit, c'.r) && InBounds(memory, c')
    ensures c'.attrPtr.Some? ==> c'.attrPtr.value + c'.attrLength <= limit
    ensures (Found(memory, c'), Rest(memory, limit, c'.r)) == Scan(Rest(memory, limit, c.r), wanted)
    ensures c.r + |WireIfFound(Found(memory, c'))| <= c'.r
  {
    c' := c.(attrPtr := None);
    while c'.r + 2 < limit
      invariant c.r <= c'.r && WellFramed(memory, limit, c'.r) && c'.attrPtr == None
      invariant Scan(Rest(memory, limit, c'.r), wanted) == Scan(Rest(memory, limit, c.r), wanted)
      decreases limit - c'.r
    {
      ghost var before := Rest(memory, limit, c'.r);
      c' := NextAttribute(memory, limit, c');
      assert before[1..] == Rest(memory, limit, c'.r);
      if c'.typeCode < wanted {
        c' := c'.(attrPtr := None);
      } else if c'.typeCode == wanted {
        return;
      } else {
        return c'.(attrPtr := None);
      }
    }
  }

  // ---------------------------------------------------------------- writing

  /** Stores octets at the output cursor. */
  method Emit(out: array<byte>, q: nat, bs: seq<byte>) returns (q': nat)
    requires q + |bs| <= out.Length
    modifies out
    ensures q' == q + |bs| && out[..q'] == old(out[..q]) + bs
  {
    forall i | 0 <= i < |bs| {
      out[q + i] := bs[i];
    }
    q' := q + |bs|;
  }

  /** Writes one attribute, with the length form its length calls for. */
  method Put(out: array<byte>, q: nat, flags: byte, typeCode: byte, value: octets) returns (q': nat)
    requires q + |Wire(Canon(Attr(flags, typeCode, value)))| <= out.Length
    modifies out
    ensures q' == q + |Wire(Canon(Attr(flags, typeCode, value)))|
    ensures out[..q'] == old(out[..q]) + Wire(Canon(Attr(flags, typeCode, value)))
  {
    var length := |value|;
    if length < 0x100 {
      q' := Emit(out, q, [ClearExtended(flags), typeCode, length]);
    } else {
      q' := Emit(out, q, [SetExtended(flags), typeCode, length / 0x100, length % 0x100]);
    }
    q' := Emit(out, q', value);
    assert Wire(Canon(Attr(flags, typeCode, value))) ==
           (if length < 0x100 then [ClearExtended(flags), typeCode, length]
            else [SetExtended(flags), typeCode, length / 0x100, length % 0x100]) + value;
  }

  method Copy(memory: seq<byte>, c: Cursor, out: array<byte>, q: nat) returns (q': nat)
    requires InBounds(memory, c) && q + |WireIfFound(Found(memory, c))| <= out.Length
    modifies out
    ensures q' == q + |WireIfFound(Found(memory, c))|
    ensures out[..q'] == old(out[..q]) + WireIfFound(Found(memory, c))
  {
    q' := q;
    if c.attrPtr.Some? {
      q' := Put(out, q, c.flags, c.typeCode, memory[c.attrPtr.value..c.attrPtr.value + c.attrLength]);
    }
  }

  /**
   `ok` is the outcome of the assertion that the attribute was found. The length is the
   caller's, not the attribute's.
   */
  method Set(memory: seq<byte>, c: Cursor, out: array<byte>, q: nat, length: uint16, flags: byte, typeCode: byte)
    returns (ok: bool, q': nat)
    requires c.attrPtr.Some? ==> c.attrPtr.value + length <= |memory|
    requires q + 4 + length <= out.Length
    modifies out
    ensures ok <==> c.attrPtr.Some?
    ensures ok ==>
              var a := Canon(Attr(flags, typeCode, memory[c.attrPtr.value..c.attrPtr.value + length]));
              q' == q + |Wire(a)| && out[..q'] == old(out[..q]) + Wire(a)
  {
    ok, q' := c.attrPtr.Some?, q;
    if ok {
      q' := Put(out, q, flags, typeCode, memory[c.attrPtr.value..c.attrPtr.value + length]);
    }
  }

  method Set4(out: array<byte>, q: nat, flags: byte, typeCode: byte, v: uint32) returns (q': nat)
    requires q + 7 <= out.Length
    modifies out
    ensures q' == q + 7 && out[..q'] == old(out[..q]) + Wire(Canon(Attr(flags, typeCode, Bytes4(v))))
  {
    q' := Emit(out, q, [ClearExtended(flags), typeCode, 4]);
    StoreSwapped(v);
    q' := Emit(out, q', Store32(Bswap32(v)));
  }

  /**
   Prepends an AS to the first segment. The octets copied behind the new AS start six
   octets into the attribute. The result is false where an assertion on the segment
   fails; and on an attribute too short for a segment header, where those assertions look
   at the octets behind it, and should they pass, a negative number of octets is copied.
   */
  method Prepend(memory: seq<byte>, c: Cursor, out: array<byte>, q: nat, asn: uint32) returns (ok: bool, q': nat)
    requires InBounds(memory, c)
    requires c.attrPtr.Some? ==> c.attrLength < 0x1_0000 - 4 && c.attrPtr.value + c.attrLength + 4 <= |memory|
    requires c.attrPtr.Some? ==> q + c.attrLength + 8 <= out.Length
    modifies out
    ensures ok <==> Found(memory, c).None? || CanPrepend(Found(memory, c).value)
    ensures ok && Found(memory, c).None? ==> q' == q && out[..] == old(out[..])
    ensures ok && Found(memory, c).Some? ==>
              var beyond := memory[c.attrPtr.value + c.attrLength..c.attrPtr.value + c.attrLength + 4];
              var a := Canon(Prepended(Found(memory, c).value, beyond, asn));
              q' == q + |Wire(a)| && out[..q'] == old(out[..q]) + Wire(a)
  {
    ok, q' := true, q;
    if c.attrPtr.Some? {
      var ptr, n := c.attrPtr.value, c.attrLength;
      if memory[ptr] != 2 || memory[ptr + 1] == 255 || n < 2 {
        ok := false;
        return;
      }
      var value := [2, memory[ptr + 1] + 1] + Store32(Bswap32(asn)) + memory[ptr + 6..ptr + 6 + (n - 2)];
      ghost var a := Prepended(Found(memory, c).value, memory[ptr + n..ptr + n + 4], asn);
      assert a == Attr(c.flags, c.typeCode, value) by {
        StoreSwapped(asn);
        PrependedAsCopied(memory, c, asn);
      }
      q' := Put(out, q, c.flags, c.typeCode, value);
    }
  }

  lemma CopiedTail(memory: seq<byte>, ptr: nat, n: nat)
    requires 2 <= n && ptr + n + 4 <= |memory|
    ensures (memory[ptr..ptr + n] + memory[ptr + n..ptr + n + 4])[6..] == memory[ptr + 6..ptr + 6 + (n - 2)]
  {
    assert memory[ptr..ptr + n] + memory[ptr + n..ptr + n + 4] == memory[ptr..ptr + n + 4];
  }

  lemma PrependedAsCopied(memory: seq<byte>, c: Cursor, asn: uint32)
    requires InBounds(memory, c) && c.attrPtr.Some? && CanPrependAt(memory, c)
    ensures var ptr, n := c.attrPtr.value, c.attrLength;
            Prepended(Found(memory, c).value, memory[ptr + n..ptr + n + 4], asn) ==
            Attr(c.flags, c.typeCode, [2, memory[ptr + 1] + 1] + Bytes4(asn) + memory[ptr + 6..ptr + 6 + (n - 2)])
  {
    CopiedTail(memory, c.attrPtr.value, c.attrLength);
  }

  predicate CanPrependAt(memory: seq<byte>, c: Cursor)
    requires InBounds(memory, c) && c.attrPtr.Some?
  {
    && 2 <= c.attrLength < 0x1_0000 - 4 && c.attrPtr.value + c.attrLength + 4 <= |memory|
    && memory[c.attrPtr.value] == 2 && memory[c.attrPtr.value + 1] < 255
  }

  /** What the remaining get-and-copy pairs would still write from here. */
  ghost function Remaining(memory: seq<byte>, limit: nat, r: nat, wanted: seq<byte>): seq<byte>
    requires WellFramed(memory, limit, r)
  {
    Wires(Kept(Gets(Rest(memory, limit, r), wanted)))
  }

  /** One get-and-copy pair, as part of a series of them. */
  method GetAndCopy(memory: seq<byte>, limit: nat, c: Cursor, out: array<byte>, q: nat, wanted: byte,
      ghost later: seq<byte>)
    returns (c': Cursor, q': nat)
    requires WellFramed(memory, limit, c.r) && q + (limit - c.r) <= out.Length
    modifies out
    ensures WellFramed(memory, limit, c'.r) && InBounds(memory, c') && c.r <= c'.r && q <= q' <= q + (c'.r - c.r)
    ensures out[..q'] + Remaining(memory, limit, c'.r, later) ==
            old(out[..q]) + Remaining(memory, limit, c.r, [wanted] + later)
  {
    c' := Get(memory, limit, c, wanted);
    q' := Copy(memory, c', out, q);
    GetsStep(Rest(memory, limit, c.r), wanted, later);
    Assoc(old(out[..q]), WireIfFound(Found(memory, c')), Remaining(memory, limit, c'.r, later));
  }

  lemma GetsStep(attrs: seq<Attr>, wanted: byte, later: seq<byte>)
    ensures var (found, rest) := Scan(attrs, wanted);
            Wires(Kept(Gets(attrs, [wanted] + later))) == WireIfFound(found) + Wires(Kept(Gets(rest, later)))
  {
    assert ([wanted] + later)[1..] == later;
    WiresKept(Gets(attrs, [wanted] + later));
  }

  lemma Assoc(x: seq<byte>, y: seq<byte>, z: seq<byte>)
    ensures (x + y) + z == x + (y + z)
  {
  }

  method SerializeCopy(memory: seq<byte>, limit: nat, out: array<byte>, q: nat) returns (q': nat)
    requires WellFramed(memory, limit, 0) && q + limit <= out.Length
    modifies out
    ensures q <= q' <= q + limit
    ensures out[..q'] == old(out[..q]) + Wires(CopyAttrs(Rest(memory, limit, 0)))
  {
    var c := Cursor(0, 0, 0, 0, None);
    c, q' := GetAndCopy(memory, limit, c, out, q, ORIGIN, [AS_PATH, NEXT_HOP, COMMUNITY]);
    c, q' := GetAndCopy(memory, limit, c, out, q', AS_PATH, [NEXT_HOP, COMMUNITY]);
    c, q' := GetAndCopy(memory, limit, c, out, q', NEXT_HOP, [COMMUNITY]);
    c, q' := GetAndCopy(memory, limit, c, out, q', COMMUNITY, []);
    assert [ORIGIN] + [AS_PATH, NEXT_HOP, COMMUNITY] == COPIED;
    assert [AS_PATH] + [NEXT_HOP, COMMUNITY] == [AS_PATH, NEXT_HOP, COMMUNITY];
    assert [NEXT_HOP] + [COMMUNITY] == [NEXT_HOP, COMMUNITY] && [COMMUNITY] + [] == [COMMUNITY];
    assert Remaining(memory, limit, c.r, []) == [];
  }

  /** The attributes of an iBGP export; `octet` is the one octet written for the ORIGIN. */
  function IbgpAttrs(attrs: seq<Attr>, octet: byte, localPref: uint32): (out: seq<Attr>)
    ensures AllFramed(out)
  {
    [Attr(WELL_KNOWN_TRANSITIVE, ORIGIN, [octet])] + Kept(Gets(Scan(attrs, ORIGIN).1, [AS_PATH, NEXT_HOP]))
    + [Attr(WELL_KNOWN_TRANSITIVE, LOCAL_PREF, Bytes4(localPref))]
  }

  /** One octet is written for the ORIGIN: its first, or the octet of memory behind it if it has none. */
  predicate FirstOctet(origin: Option<Attr>, octet: byte) {
    origin.Some? && origin.value.value != [] ==> octet == origin.value.value[0]
  }

  /** By how much an export may be longer for writing an ORIGIN that is empty. */
  function Extra(origin: Option<Attr>): nat {
    if origin.Some? && origin.value.value == [] then 1 else 0
  }

  lemma {:induction false} WiresConcat(xs: seq<Attr>, ys: seq<Attr>)
    requires AllFramed(xs) && AllFramed(ys)
    ensures AllFramed(xs + ys) && Wires(xs + ys) == Wires(xs) + Wires(ys)
  {
    if xs == [] {
      assert xs + ys == ys;
    } else {
      var x, tail := xs[0], xs[1..];
      WiresConcat(tail, ys);
      WiresCons(x, tail + ys);
      assert [x] + (tail + ys) == xs + ys;
      Assoc(Wire(x), Wires(tail), Wires(ys));
    }
  }

  lemma WiresOne(a: Attr)
    requires Framed(a)
    ensures Wires([a]) == Wire(a)
  {
    assert [a][1..] == [];
  }

  method CopyPathAndNextHop(memory: seq<byte>, limit: nat, c: Cursor, out: array<byte>, q: nat) returns (q': nat)
    requires WellFramed(memory, limit, c.r) && q + (limit - c.r) <= out.Length
    modifies out
    ensures q <= q' <= q + (limit - c.r)
    ensures out[..q'] == old(out[..q]) + Remaining(memory, limit, c.r, [AS_PATH, NEXT_HOP])
  {
    var c';
    c', q' := GetAndCopy(memory, limit, c, out, q, AS_PATH, [NEXT_HOP]);
    c', q' := GetAndCopy(memory, limit, c', out, q', NEXT_HOP, []);
    assert [AS_PATH] + [NEXT_HOP] == [AS_PATH, NEXT_HOP] && [NEXT_HOP] + [] == [NEXT_HOP];
    assert Remaining(memory, limit, c'.r, []) == [];
  }

  /** Both serializers start like this: they look for the ORIGIN and write one octet of it. */
  method GetAndSetOrigin(memory: seq<byte>, limit: nat, out: array<byte>, q: nat)
    returns (ok: bool, c: Cursor, q': nat, ghost octet: byte)
    requires WellFramed(memory, limit, 0) && limit < |memory| && q + 5 <= out.Length
    modifies out
    ensures var (origin, rest) := Scan(Rest(memory, limit, 0), ORIGIN);
            && (ok <==> origin.Some?) && FirstOctet(origin, octet)
            && WellFramed(memory, limit, c.r) && Rest(memory, limit, c.r) == rest
            && (ok ==> q' == q + 4 <= q + c.r + Extra(origin))
    ensures ok ==> out[..q'] == old(out[..q]) + Wire(Attr(WELL_KNOWN_TRANSITIVE, ORIGIN, [octet]))
  {
    c := Get(memory, limit, Cursor(0, 0, 0, 0, None), ORIGIN);
    octet := if c.attrPtr.Some? then memory[c.attrPtr.value] else 0;
    ok, q' := Set(memory, c, out, q, 1, WELL_KNOWN_TRANSITIVE, ORIGIN);
    if ok {
      assert memory[c.attrPtr.value..c.attrPtr.value + 1] == [octet];
    }
  }

  /**
   The iBGP serializer. It fails exactly when the first `get` finds no ORIGIN. One octet
   of memory behind the attributes must be readable, in case an empty ORIGIN ends them.
   */
  method SerializeIbgp(memory: seq<byte>, limit: nat, localPref: uint32, out: array<byte>, q: nat)
    returns (ok: bool, q': nat, ghost octet: byte)
    requires WellFramed(memory, limit, 0) && limit < |memory| && q + limit + 8 <= out.Length
    modifies out
    ensures var attrs := Rest(memory, limit, 0);
            var origin := Scan(attrs, ORIGIN).0;
            && (ok <==> origin.Some?) && FirstOctet(origin, octet)
            && (ok ==> q <= q' <= q + limit + 7 + Extra(origin))
            && (ok ==> out[..q'] == old(out[..q]) + Wires(IbgpAttrs(attrs, octet, localPref)))
  {
    ghost var start := out[..q];
    var c;
    ok, c, q', octet := GetAndSetOrigin(memory, limit, out, q);
    if !ok {
      return;
    }
    ghost var first := Attr(WELL_KNOWN_TRANSITIVE, ORIGIN, [octet]);
    ghost var kept := Gets(Rest(memory, limit, c.r), [AS_PATH, NEXT_HOP]);
    ghost var last := Attr(WELL_KNOWN_TRANSITIVE, LOCAL_PREF, Bytes4(localPref));
    assert Canon(last) == last;
    q' := CopyPathAndNextHop(memory, limit, c, out, q');
    q' := Set4(out, q', WELL_KNOWN_TRANSITIVE, LOCAL_PREF, localPref);
    IbgpWire(start, first, kept, last);
  }

  lemma IbgpWire(start: seq<byte>, origin: Attr, found: seq<Option<Attr>>, lp: Attr)
    requires Framed(origin) && Framed(lp)
    ensures AllFramed([origin] + Kept(found) + [lp])
    ensures start + Wires([origin] + Kept(found) + [lp]) == start + Wire(origin) + Wires(Kept(found)) + Wire(lp)
  {
    WiresOne(lp);
    WiresCons(origin, Kept(found));
    WiresConcat([origin] + Kept(found), [lp]);
    assert start + (Wire(origin) + Wires(Kept(found)) + Wire(lp))
        == start + Wire(origin) + Wires(Kept(found)) + Wire(lp);
  }

  /** Does the path, when there is one, stay within a two-octet length? */
  predicate PathBounded(path: Option<Attr>) { path.Some? ==> |path.value.value| < 0x1_0000 - 4 }

  predicate PathExtensible(path: Option<Attr>) { path.Some? ==> CanPrepend(path.value) }

  /** The attributes of an eBGP export behind the ORIGIN; `beyond` are the octets of memory behind the path. */
  function EbgpTail(attrs: seq<Attr>, beyond: seq<byte>): (tail: seq<Attr>)
    requires |beyond| == 4
    requires PathBounded(Scan(attrs, AS_PATH).0) && PathExtensible(Scan(attrs, AS_PATH).0)
    ensures AllFramed(tail)
  {
    var (path, rest) := Scan(attrs, AS_PATH);
    (if path.None? then [] else [Canon(Prepended(path.value, beyond, EBGP_AS))])
        + Kept(Gets(rest, [NEXT_HOP, COMMUNITY]))
  }

  /** The get-and-prepend pair. */
  method GetAndPrepend(memory: seq<byte>, limit: nat, c: Cursor, out: array<byte>, q: nat)
    returns (ok: bool, c': Cursor, q': nat, ghost beyond: seq<byte>)
    requires WellFramed(memory, limit, c.r) && limit <= MAX_MESSAGE && limit + 4 <= |memory|
    requires q + (limit - c.r) + 8 <= out.Length
    modifies out
    ensures WellFramed(memory, limit, c'.r) && c.r <= c'.r && |beyond| == 4
    ensures Rest(memory, limit, c'.r) == Scan(Rest(memory, limit, c.r), AS_PATH).1
    ensures PathBounded(Scan(Rest(memory, limit, c.r), AS_PATH).0)
    ensures var path := Scan(Rest(memory, limit, c.r), AS_PATH).0;
            && (ok <==> PathExtensible(path))
            && (ok ==> q <= q' <= q + (c'.r - c.r) + 5)
            && (ok && path.None? ==> out[..q'] == old(out[..q]))
            && (ok && path.Some? ==>
                  out[..q'] == old(out[..q]) + Wire(Canon(Prepended(path.value, beyond, EBGP_AS))))
  {
    c' := Get(memory, limit, c, AS_PATH);
    beyond := [0, 0, 0, 0];
    if c'.attrPtr.Some? {
      beyond := memory[c'.attrPtr.value + c'.attrLength..c'.attrPtr.value + c'.attrLength + 4];
    }
    ok, q' := Prepend(memory, c', out, q, EBGP_AS);
  }

  method CopyNextHopAndCommunity(memory: seq<byte>, limit: nat, c: Cursor, out: array<byte>, q: nat) returns (q': nat)
    requires WellFramed(memory, limit, c.r) && q + (limit - c.r) <= out.Length
    modifies out
    ensures q <= q' <= q + (limit - c.r)
    ensures out[..q'] == old(out[..q]) + Remaining(memory, limit, c.r, [NEXT_HOP, COMMUNITY])
  {
    var c';
    c', q' := GetAndCopy(memory, limit, c, out, q, NEXT_HOP, [COMMUNITY]);
    c', q' := GetAndCopy(memory, limit, c', out, q', COMMUNITY, []);
    assert [NEXT_HOP] + [COMMUNITY] == [NEXT_HOP, COMMUNITY] && [COMMUNITY] + [] == [COMMUNITY];
    assert Remaining(memory, limit, c'.r, []) == [];
  }

  method WriteEbgpTail(memory: seq<byte>, limit: nat, c: Cursor, out: array<byte>, q: nat)
    returns (ok: bool, q': nat, ghost beyond: seq<byte>)
    requires WellFramed(memory, limit, c.r) && limit <= MAX_MESSAGE && limit + 4 <= |memory|
    requires q + (limit - c.r) + 8 <= out.Length
    modifies out
    ensures PathBounded(Scan(Rest(memory, limit, c.r), AS_PATH).0)
    ensures |beyond| == 4 && (ok <==> PathExtensible(Scan(Rest(memory, limit, c.r), AS_PATH).0))
    ensures ok ==> q <= q' <= q + (limit - c.r) + 5
    ensures ok ==> out[..q'] == old(out[..q]) + Wires(EbgpTail(Rest(memory, limit, c.r), beyond))
  {
    var c';
    ok, c', q', beyond := GetAndPrepend(memory, limit, c, out, q);
    if ok {
      q' := CopyNextHopAndCommunity(memory, limit, c', out, q');
      TailWire(old(out[..q]), Rest(memory, limit, c.r), beyond);
    }
  }

  lemma TailWire(start: seq<byte>, attrs: seq<Attr>, beyond: seq<byte>)
    requires |beyond| == 4
    requires PathBounded(Scan(attrs, AS_PATH).0) && PathExtensible(Scan(attrs, AS_PATH).0)
    ensures var (path, rest) := Scan(attrs, AS_PATH);
            start + Wires(EbgpTail(attrs, beyond)) ==
            (if path.None? then start else start + Wire(Canon(Prepended(path.value, beyond, EBGP_AS))))
            + Wires(Kept(Gets(rest, [NEXT_HOP, COMMUNITY])))
  {
    var (path, rest) := Scan(attrs, AS_PATH);
    var kept := Kept(Gets(rest, [NEXT_HOP, COMMUNITY]));
    if path.None? {
      assert [] + kept == kept;
    } else {
      var a := Canon(Prepended(path.value, beyond, EBGP_AS));
      WiresCons(a, kept);
      Assoc(start, Wire(a), Wires(kept));
    }
  }

  /** The attributes of an eBGP export; `octet` is the one octet written for the ORIGIN. */
  function EbgpAttrs(attrs: seq<Attr>, octet: byte, beyond: seq<byte>): (out: seq<Attr>)
    requires |beyond| == 4
    requires var path := Scan(Scan(attrs, ORIGIN).1, AS_PATH).0; PathBounded(path) && PathExtensible(path)
    ensures AllFramed(out)
  {
    [Attr(WELL_KNOWN_TRANSITIVE, ORIGIN, [octet])] + EbgpTail(Scan(attrs, ORIGIN).1, beyond)
  }

  /**
   The eBGP serializer. It fails exactly when the first `get` finds no ORIGIN, or the
   path found does not start with a sequence segment that has room for one more AS.
   */
  method SerializeEbgp(memory: seq<byte>, limit: nat, out: array<byte>, q: nat)
    returns (ok: bool, q': nat, ghost octet: byte, ghost beyond: seq<byte>)
    requires WellFramed(memory, limit, 0) && limit <= 4096 && limit + 4 <= |memory|
             && q + limit + 9 <= out.Length
    modifies out
    ensures var attrs := Rest(memory, limit, 0);
            var (origin, rest) := Scan(attrs, ORIGIN);
            && FirstOctet(origin, octet) && |beyond| == 4
            && (ok <==> origin.Some? && PathExtensible(Scan(rest, AS_PATH).0))
            && (ok ==> q <= q' <= q + limit + 5 + Extra(origin) && PathBounded(Scan(rest, AS_PATH).0))
            && (ok ==> out[..q'] == old(out[..q]) + Wires(EbgpAttrs(attrs, octet, beyond)))
  {
    ghost var start := out[..q];
    beyond := [0, 0, 0, 0];
    var c;
    ok, c, q', octet := GetAndSetOrigin(memory, limit, out, q);
    if !ok {
      return;
    }
    ok, q', beyond := WriteEbgpTail(memory, limit, c, out, q');
    if ok {
      var first, tail := Attr(WELL_KNOWN_TRANSITIVE, ORIGIN, [octet]), EbgpTail(Rest(memory, limit, c.r), beyond);
      WiresCons(first, tail);
      Assoc(start, Wire(first), Wires(tail));
    }
  }
}
