/**
 The formats octet by octet, in the numbers of section 4 of RFC 4271: words, prefixes, path
 attributes, path segments, and whole messages.
 */
module Layout {
  import opened Basics
  import opened Prefixes
  import opened Nlri
  import opened Attributes
  import opened Export
  import opened Import
  import opened UpdateMessage

  // ---------------------------------------------------------------- words

  /** Words have their most significant octet first; stored and loaded as they are, their least significant one. */
  lemma WordLayout(w: uint16, v: uint32)
    ensures 256 * Bytes2(w)[0] as int + Bytes2(w)[1] as int == w
    ensures var bs := Bytes4(v);
            0x100_0000 * bs[0] as int + 0x1_0000 * bs[1] as int + 0x100 * bs[2] as int + bs[3] as int == v
    ensures Store32(v) == [Bytes4(v)[3], Bytes4(v)[2], Bytes4(v)[1], Bytes4(v)[0]]
    ensures Load32(Store32(v)) == v
  {
    OctetSums(v);
    var bs := Bytes4(v);
    var b0: nat, b1: nat, b2: nat, b3: nat := bs[0], bs[1], bs[2], bs[3];
    assert v == b3 + 0x100 * (b2 + 0x100 * (b1 + 0x100 * b0));
    LowOctet(b3, b2 + 0x100 * (b1 + 0x100 * b0));
    LowOctet(b2, b1 + 0x100 * b0);
    LowOctet(b1, b0);
  }

  /** The byte swap turns the octets of a word around. */
  lemma SwapLayout(v: uint32)
    ensures Bytes4(Bswap32(v)) == [Bytes4(v)[3], Bytes4(v)[2], Bytes4(v)[1], Bytes4(v)[0]]
  {
    WordLayout(0, Bswap32(v));
    StoreSwapped(v);
    var s, b := Store32(Bswap32(v)), Bytes4(Bswap32(v));
    assert b == [s[3], s[2], s[1], s[0]];
  }

  // ---------------------------------------------------------------- prefixes

  /**
   A prefix is its length in bits, and the leading octets of its address, as few as hold
   that many bits.
   */
  lemma PrefixLayout(la: prefix64)
    requires Length(la) <= 32
    ensures la == 0x1_0000_0000 * Length(la) as int + Address(la)
    ensures var w := PrefixWire(la);
            && w[0] == Length(la) && 8 * (|w| - 1) >= w[0] as int > 8 * (|w| - 1) - 8
            && (|w| > 1 ==> w[1] == Address(la) / 0x100_0000)
            && (|w| > 2 ==> w[2] == Address(la) / 0x1_0000 % 0x100)
            && (|w| > 3 ==> w[3] == Address(la) / 0x100 % 0x100)
            && (|w| > 4 ==> |w| == 5 && w[4] == Address(la) % 0x100)
  {
    var c := Chunks(Length(la));
    assert forall k | 0 <= k < c :: PrefixWire(la)[1 + k] == Bytes4(Address(la))[k];
  }

  /** The index of a prefix of at most 24 bits is as many leading bits of the address behind a 1 bit. */
  lemma IndexLayout(l: nat, a: uint32)
    requires l <= 24
    ensures Shl(Encode(l, a), 32 - l) <= 0x1_0000_0000 + a < Shl(Encode(l, a) + 1, 32 - l)
    ensures Encode(24, a) == 0x100_0000 + a / 0x100 && Encode(16, a) == 0x1_0000 + a / 0x1_0000
  {
    ShrBounds(0x1_0000_0000 + a, 32 - l);
    ShlAdd(Encode(l, a), 1, 32 - l);
    Shr8(0x1_0000_0000 + a, 0);
    Shr8(0x1_0000_0000 + a, 8);
  }

  /** Among prefixes of one length the indices are in the order of the addresses. */
  lemma IndexOrdered(l: nat, a: uint32, b: uint32)
    requires l <= 24 && a <= b
    ensures Encode(l, a) <= Encode(l, b)
  {
    IndexLayout(l, a);
    IndexLayout(l, b);
    ShlMore(Encode(l, b) + 1, Encode(l, a), 32 - l);
  }

  lemma ShlMore(m: nat, n: nat, k: nat)
    ensures m <= n ==> Shl(m, k) <= Shl(n, k)
  {
    if m < n { ShlLess(m, n, k); }
  }

  // ---------------------------------------------------------------- path attributes

  lemma Residue(k: nat, y: nat)
    requires y < 32
    ensures (32 * k + y) % 32 == y && (32 * k + y) / 16 % 2 == if y < 16 then 0 else 1
  {
    assert (32 * k + y) / 16 == 2 * k + y / 16;
  }

  /** The fifth bit of the flags from below says that the length has two octets. */
  lemma FlagLayout(flags: byte)
    ensures Extended(flags) <==> flags % 32 >= 16
    ensures var long, short := SetExtended(flags), ClearExtended(flags);
            && long % 32 >= 16 && (long == flags || long == flags + 16)
            && short % 32 < 16 && (short == flags || short + 16 == flags)
  {
    var k: nat, y: nat := flags / 32, flags % 32;
    assert flags == 32 * k + y;
    Residue(k, y);
    Residue(k, if y < 16 then y + 16 else y - 16);
  }

  /** What is written for an attribute: flags, type, one or two octets of length, value. */
  lemma AttributeLayout(a: Attr)
    ensures var w := Wire(Canon(a));
            && w[0] / 32 == a.flags / 32 && w[0] % 16 == a.flags % 16 && w[1] == a.typeCode
            && (|a.value| < 256 ==> w[0] % 32 < 16 && w[2] == |a.value| && w[3..] == a.value)
            && (|a.value| >= 256 ==>
                  w[0] % 32 >= 16 && 256 * w[2] as int + w[3] as int == |a.value| && w[4..] == a.value)
  {
    FlagLayout(a.flags);
    WordLayout(|a.value|, 0);
  }

  /** What is read as an attribute. */
  lemma AttributeRead(m: seq<byte>, limit: nat)
    requires limit <= |m| && StartsAttr(m, 0, limit)
    ensures var a := AttrAt(m, 0, limit);
            && a.flags == m[0] && a.typeCode == m[1]
            && (m[0] % 32 < 16 ==> |a.value| == m[2] as int && 3 + m[2] as int <= limit && a.value == m[3..3 + m[2]])
            && (m[0] % 32 >= 16 ==>
                  && |a.value| == 256 * m[2] as int + m[3] as int && 4 + |a.value| <= limit
                  && a.value == m[4..4 + |a.value|])
  {
    FlagLayout(m[0]);
  }

  /** A path of one segment: a set, type 1, counts as one, a sequence, type 2, as its ASes of four octets each. */
  lemma SegmentLayout(n: byte, octets: seq<byte>)
    requires |octets| == 4 * n as int
    ensures PathLength([1, n] + octets) == Some(1)
    ensures PathLength([2, n] + octets) == Some(n)
  {
    var group, sequence := [1, n] + octets, [2, n] + octets;
    assert WeightFrom(group, |group|) == Some(0) && WeightFrom(sequence, |sequence|) == Some(0);
    assert group[0] == 1 && sequence[0] == 2 && group[1] == sequence[1] == n;
    assert WeightFrom(group, 0) == Some(1) && WeightFrom(sequence, 0) == Some(n as nat);
  }

  // ---------------------------------------------------------------- messages

  /** An announcement, octet by octet. */
  lemma MessageLayout(attributes: octets, nlri: seq<byte>)
    requires 23 + |attributes| + |nlri| < 0x1_0000
    ensures var m := UpdateWire(attributes, nlri);
            && |m| == 23 + |attributes| + |nlri|
            && (forall i | 0 <= i < 16 :: m[i] == 0xff)
            && 256 * m[16] as int + m[17] as int == |m|
            && m[18] == 2 && m[19] == 0 && m[20] == 0
            && 256 * m[21] as int + m[22] as int == |attributes|
            && m[23..23 + |attributes|] == attributes
            && m[23 + |attributes|..] == nlri
  {
    var m := UpdateWire(attributes, nlri);
    var size, length := Bytes2(|m|), Bytes2(|attributes|);
    assert m[16] == size[0] && m[17] == size[1] && m[21] == length[0] && m[22] == length[1];
    WordLayout(|m|, 0);
    WordLayout(|attributes|, 0);
  }

  /** Where a message starts, in the same terms. */
  lemma MessageRead(stream: seq<byte>, length: nat)
    requires |stream| >= length >= 19
    ensures MessageAt(stream, 0, length) <==>
            && (forall i | 0 <= i < 16 :: stream[i] == 0xff)
            && 256 * stream[16] as int + stream[17] as int == length && stream[18] == 2
    ensures MessageAt(stream, 0, length) ==> BodyOf(stream, 0, length) == stream[19..length]
  {
    if MessageAt(stream, 0, length) {
      forall i | 0 <= i < 16 ensures stream[i] == 0xff {
        assert stream[0..16][i] == MARKER[i];
      }
    }
    if forall i | 0 <= i < 16 :: stream[i] == 0xff {
      assert stream[0..16] == MARKER;
    }
  }
}
