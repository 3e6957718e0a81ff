/** The wire form of prefixes: a length octet followed by as many address octets as the length needs. */
module Nlri {
  import opened Basics
  import opened Prefixes

  function Chunks(length: byte): nat { (length + 7) / 8 }

  function BigEndian(bs: seq<byte>): nat {
    if bs == [] then 0 else 0x100 * BigEndian(bs[..|bs| - 1]) + bs[|bs| - 1]
  }

  function LittleEndian(bs: seq<byte>): nat {
    if bs == [] then 0 else bs[0] + 0x100 * LittleEndian(bs[1..])
  }

  /** The octets of a 32-bit word, most significant first. */
  function Bytes4(a: uint32): (bs: seq<byte>)
    ensures |bs| == 4
  {
    [a / 0x100_0000, a / 0x1_0000 % 0x100, a / 0x100 % 0x100, a % 0x100]
  }

  /** The octets of a 16-bit word, most significant first. */
  function Bytes2(w: uint16): (bs: seq<byte>)
    ensures |bs| == 2
  {
    [w / 0x100, w % 0x100]
  }

  /** The byte swap of a 32-bit word. */
  function Bswap32(a: uint32): (w: uint32)
    ensures w == LittleEndian(Bytes4(a))
  {
    var bs := Bytes4(a);
    assert bs[1..][1..][1..] == [bs[3]] && bs[1..][1..] == [bs[2], bs[3]];
    assert LittleEndian([bs[3]]) == bs[3];
    assert LittleEndian([bs[2], bs[3]]) == bs[2] + 0x100 * bs[3] as int;
    var b0: int, b1: int, b2: int, b3: int := bs[0], bs[1], bs[2], bs[3];
    b0 + 0x100 * b1 + 0x1_0000 * b2 + 0x100_0000 * b3
  }

  /** What is written for a prefix. */
  function PrefixWire(la: prefix64): (bs: seq<byte>)
    requires Length(la) <= 32
    ensures |bs| == 1 + Chunks(Length(la))
  {
    [Length(la)] + Bytes4(Address(la))[..Chunks(Length(la))]
  }

  /** Does a complete prefix start here? */
  predicate StartsPrefix(bs: seq<byte>) {
    bs != [] && bs[0] <= 32 && 1 + Chunks(bs[0]) <= |bs|
  }

  /** What is read where a complete prefix starts. */
  function WirePrefix(bs: seq<byte>): prefix64
    requires StartsPrefix(bs)
  {
    var c := Chunks(bs[0]);
    BigEndianBound(bs[1..1 + c]);
    Join(bs[0], Shl(BigEndian(bs[1..1 + c]), 32 - 8 * c))
  }

  /** The prefixes of a list, or nothing if the list is malformed. */
  function ParsePrefixes(bs: seq<byte>): Option<seq<prefix64>> {
    if bs == [] then Some([])
    else if !StartsPrefix(bs) then None
    else match ParsePrefixes(bs[1 + Chunks(bs[0])..])
         case None => None
         case Some(rest) => Some([WirePrefix(bs)] + rest)
  }

  function PrefixesWire(ps: seq<prefix64>): seq<byte>
    requires forall p <- ps :: Length(p) <= 32
  {
    if ps == [] then [] else PrefixWire(ps[0]) + PrefixesWire(ps[1..])
  }

  lemma {:induction false} BigEndianBound(bs: seq<byte>)
    ensures |bs| <= 4 ==> Shl(BigEndian(bs), 32 - 8 * |bs|) < TWO_32
    ensures BigEndian(bs) < Shl(1, 8 * |bs|)
  {
    if bs != [] {
      BigEndianBound(bs[..|bs| - 1]);
      Shl8(1, 8 * (|bs| - 1));
    }
    if |bs| <= 4 {
      TwoTo32(8 * |bs|);
      ShlLess(BigEndian(bs), Shl(1, 8 * |bs|), 32 - 8 * |bs|);
      ShlPositive(1, 32 - 8 * |bs|);
    }
  }

  lemma Shl8(n: nat, k: nat)
    ensures Shl(n, k + 8) == 0x100 * Shl(n, k)
  {
    ShlShl(n, k, 8);
    ShlScale(Shl(n, k), 8);
  }

  lemma Shr8(n: nat, k: nat)
    ensures Shr(n, k + 8) == Shr(n, k) / 0x100
  {
    var m := Shr(n, k);
    assert Shr(n, k + 1) == m / 2;
    assert Shr(n, k + 2) == m / 4;
    assert Shr(n, k + 3) == m / 8;
    assert Shr(n, k + 4) == m / 16;
    assert Shr(n, k + 5) == m / 32;
    assert Shr(n, k + 6) == m / 64;
    assert Shr(n, k + 7) == m / 128;
  }

  lemma BigEndianSnoc(bs: seq<byte>, b: byte)
    ensures BigEndian(bs + [b]) == 0x100 * BigEndian(bs) + b
  {
    assert (bs + [b])[..|bs|] == bs;
  }

  lemma BigEndian4(b0: byte, b1: byte, b2: byte, b3: byte)
    ensures BigEndian([b0]) == b0
    ensures BigEndian([b0, b1]) == 0x100 * b0 + b1
    ensures BigEndian([b0, b1, b2]) == 0x1_0000 * b0 + 0x100 * b1 + b2
    ensures BigEndian([b0, b1, b2, b3]) == 0x100_0000 * b0 + 0x1_0000 * b1 + 0x100 * b2 + b3
  {
    BigEndianSnoc([], b0);
    assert [b0] == [] + [b0];
    BigEndianSnoc([b0], b1);
    assert [b0, b1] == [b0] + [b1];
    BigEndianSnoc([b0, b1], b2);
    assert [b0, b1, b2] == [b0, b1] + [b2];
    BigEndianSnoc([b0, b1, b2], b3);
    assert [b0, b1, b2, b3] == [b0, b1, b2] + [b3];
  }

  lemma ShrOctets(a: uint32)
    ensures Shr(a, 8) == a / 0x100 && Shr(a, 16) == a / 0x1_0000 && Shr(a, 24) == a / 0x100_0000 && Shr(a, 32) == 0
  {
    Shr8(a, 0);
    Shr8(a, 8);
    Shr8(a, 16);
    Shr8(a, 24);
  }

  lemma OctetSums(a: uint32)
    ensures var bs := Bytes4(a);
            var b0: int, b1: int, b2: int, b3: int := bs[0], bs[1], bs[2], bs[3];
            && 0x100 * b0 + b1 == a / 0x1_0000
            && 0x1_0000 * b0 + 0x100 * b1 + b2 == a / 0x100
            && 0x100_0000 * b0 + 0x1_0000 * b1 + 0x100 * b2 + b3 == a
  {
    var h, m := a / 0x1_0000, a / 0x100;
    assert h / 0x100 == a / 0x100_0000 && m / 0x100 == h;
    assert m == 0x100 * h + m % 0x100 && a == 0x100 * m + a % 0x100;
  }

  /** The leading octets of a word are its value shifted right. */
  lemma LeadingOctets(a: uint32, c: nat)
    requires c <= 4
    ensures BigEndian(Bytes4(a)[..c]) == Shr(a, 32 - 8 * c)
  {
    var bs := Bytes4(a);
    var b0, b1, b2, b3 := bs[0], bs[1], bs[2], bs[3];
    ShrOctets(a);
    OctetSums(a);
    BigEndian4(b0, b1, b2, b3);
    assert bs[..0] == [] && bs[..1] == [b0] && bs[..2] == [b0, b1] && bs[..3] == [b0, b1, b2]
        && bs[..4] == [b0, b1, b2, b3];
  }

  /** Reading what was written keeps the length and the octets that fit, whatever follows. */
  lemma ReadWritten(la: prefix64, rest: seq<byte>)
    requires Length(la) <= 32
    ensures StartsPrefix(PrefixWire(la) + rest)
    ensures WirePrefix(PrefixWire(la) + rest) == Join(Length(la), Masked(8 * Chunks(Length(la)), Address(la)))
  {
    var c := Chunks(Length(la));
    assert (PrefixWire(la) + rest)[1..1 + c] == Bytes4(Address(la))[..c];
    LeadingOctets(Address(la), c);
  }

  /** A prefix survives the wire exactly when it is clear beyond its last octet. */
  lemma PrefixRoundTrip(la: prefix64, rest: seq<byte>)
    requires Length(la) <= 32
    ensures StartsPrefix(PrefixWire(la) + rest)
    ensures WirePrefix(PrefixWire(la) + rest) == la <==> Masked(8 * Chunks(Length(la)), Address(la)) == Address(la)
  {
    ReadWritten(la, rest);
    assert la == Join(Length(la), Address(la));
  }

  /** Canonical prefixes, those with no host bits, come back from a list in order. */
  lemma {:induction false} PrefixListRoundTrip(ps: seq<prefix64>)
    requires forall p <- ps :: Length(p) <= 32 && MaskedPrefix(p) == p
    ensures ParsePrefixes(PrefixesWire(ps)) == Some(ps)
  {
    if ps != [] {
      var p := ps[0];
      var rest := PrefixesWire(ps[1..]);
      assert Masked(Length(p), Address(p)) == Address(p);
      MaskedWider(Length(p), 8 * Chunks(Length(p)), Address(p));
      PrefixRoundTrip(p, rest);
      PrefixListRoundTrip(ps[1..]);
      var wire := PrefixWire(p) + rest;
      assert wire[1 + Chunks(wire[0])..] == rest;
      assert ParsePrefixes(wire) == Some([p] + ps[1..]);
      assert PrefixesWire(ps) == wire && [p] + ps[1..] == ps;
    }
  }

  // ---------------------------------------------------------------- the loops

  /** Reads one prefix and advances; the accumulator is shifted left once per octet and then into canonical position. */
  method NlriIter(bs: seq<byte>, p: nat) returns (la: prefix64, next: nat)
    requires p < |bs| && StartsPrefix(bs[p..])
    ensures la == WirePrefix(bs[p..]) && next == p + 1 + Chunks(bs[p])
  {
    var length := bs[p];
    var c := Chunks(length);
    var acc: nat, i := 0, 0;
    next := p + 1;
    while i < c
      invariant i <= c && next == p + 1 + i
      invariant acc == BigEndian(bs[p + 1..p + 1 + i])
    {
      acc := 0x100 * acc + bs[next] as int;
      assert bs[p + 1..p + 2 + i] == bs[p + 1..p + 1 + i] + [bs[next]];
      BigEndianSnoc(bs[p + 1..p + 1 + i], bs[next]);
      next, i := next + 1, i + 1;
    }
    assert bs[p..][1..1 + c] == bs[p + 1..p + 1 + c] && bs[p..][0] == length;
    BigEndianBound(bs[p + 1..p + 1 + c]);
    la := Join(length, Shl(acc, 32 - 8 * c));
  }

  /** A list is its first prefix and the list behind it. */
  lemma ListStep(bs: seq<byte>, at: nat)
    requires at < |bs| && ParsePrefixes(bs[at..]).Some?
    ensures StartsPrefix(bs[at..]) && at + 1 + Chunks(bs[at]) <= |bs|
    ensures ParsePrefixes(bs[at + 1 + Chunks(bs[at])..]).Some?
    ensures ParsePrefixes(bs[at..]).value == [WirePrefix(bs[at..])] + ParsePrefixes(bs[at + 1 + Chunks(bs[at])..]).value
  {
    assert bs[at..][1 + Chunks(bs[at])..] == bs[at + 1 + Chunks(bs[at])..];
  }

  /** Counts the prefixes of a list without reading their addresses. */
  method NlriCount(bs: seq<byte>) returns (count: nat)
    requires ParsePrefixes(bs).Some?
    ensures count == |ParsePrefixes(bs).value|
  {
    var off := 0;
    count := 0;
    while off < |bs|
      invariant off <= |bs| && ParsePrefixes(bs[off..]).Some?
      invariant count + |ParsePrefixes(bs[off..]).value| == |ParsePrefixes(bs).value|
    {
      ListStep(bs, off);
      off := off + 1 + Chunks(bs[off]);
      count := count + 1;
    }
  }

  /** Writes one prefix at the cursor, octet by octet from the byte-swapped address, and returns the advanced cursor. */
  method BuildNlri(buf: array<byte>, at: nat, la: prefix64) returns (next: nat)
    requires Length(la) <= 32 && at + 1 + Chunks(Length(la)) <= buf.Length
    modifies buf
    ensures next == at + 1 + Chunks(Length(la))
    ensures buf[..at] == old(buf[..at]) && buf[next..] == old(buf[next..])
    ensures buf[at..next] == PrefixWire(la)
  {
    var bs := Bytes4(Address(la));
    var address, length := Bswap32(Address(la)), Length(la);
    var chunk := 0;
    buf[at] := length;
    next := at + 1;
    while chunk < Chunks(length)
      invariant chunk <= Chunks(length) && next == at + 1 + chunk
      invariant address == LittleEndian(bs[chunk..])
      invariant buf[..at] == old(buf[..at]) && buf[at] == length
      invariant forall i | 0 <= i < chunk :: buf[at + 1 + i] == bs[i]
      invariant forall i | next <= i < buf.Length :: buf[i] == old(buf[i])
    {
      assert bs[chunk..][1..] == bs[chunk + 1..];
      buf[next] := address % 0x100;
      address := address / 0x100;
      next, chunk := next + 1, chunk + 1;
    }
    assert buf[at..next] == [length] + bs[..chunk];
  }
}
