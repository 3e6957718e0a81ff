/** The message the output phase builds for a block of addresses and one route, for a peer group of the same AS. */
module Announce {
  import opened Basics
  import opened Prefixes
  import opened Nlri
  import opened Attributes
  import opened Export
  import opened UpdateMessage

  const TX_SIZE: nat := 8192

  /** Table indices that can be looked up. */
  predicate Known(issued: seq<nat>, addrs: seq<nat>) {
    forall i | 0 <= i < |addrs| :: addrs[i] < |issued| && 2 <= issued[addrs[i]] < Shl(1, 25)
  }

  /** A decoded prefix has no host bits and a length that fits the wire. */
  lemma DecodedIsCanonical(ref: nat)
    requires 2 <= ref < Shl(1, 25)
    ensures 1 <= Length(Decode(ref)) <= MAX_LENGTH && MaskedPrefix(Decode(ref)) == Decode(ref)
  {
    EncodeDecode(ref);
    DecodeEncode(Length(Decode(ref)), Address(Decode(ref)));
  }

  ghost predicate Writable(ps: seq<prefix64>) { forall p <- ps :: Length(p) <= 32 }

  /** The prefixes of a block of addresses, by the inverse prefix table. */
  ghost function DecodeAll(issued: seq<nat>, addrs: seq<nat>): (ps: seq<prefix64>)
    requires Known(issued, addrs)
    ensures |ps| == |addrs| && forall i | 0 <= i < |ps| :: ps[i] == Decode(issued[addrs[i]])
    ensures Writable(ps)
  {
    var ps := seq(|addrs|, i requires 0 <= i < |addrs| => Decode(issued[addrs[i]]));
    assert Writable(ps) by {
      forall p <- ps ensures Length(p) <= 32 {
        var i :| 0 <= i < |addrs| && ps[i] == p;
        DecodedIsCanonical(issued[addrs[i]]);
      }
    }
    ps
  }

  lemma DecodeAllCanonical(issued: seq<nat>, addrs: seq<nat>)
    requires Known(issued, addrs)
    ensures forall p <- DecodeAll(issued, addrs) :: Length(p) <= 32 && MaskedPrefix(p) == p
  {
    forall p <- DecodeAll(issued, addrs) ensures Length(p) <= 32 && MaskedPrefix(p) == p {
      var i :| 0 <= i < |addrs| && DecodeAll(issued, addrs)[i] == p;
      DecodedIsCanonical(issued[addrs[i]]);
    }
  }

  lemma {:induction false} PrefixesWireSnoc(ps: seq<prefix64>, p: prefix64)
    requires Writable(ps) && Length(p) <= 32
    ensures Writable(ps + [p]) && PrefixesWire(ps + [p]) == PrefixesWire(ps) + PrefixWire(p)
  {
    if ps == [] {
      assert [] + [p] == [p] && [p][1..] == [];
    } else {
      PrefixesWireSnoc(ps[1..], p);
      assert (ps + [p])[1..] == ps[1..] + [p];
      Assoc(PrefixWire(ps[0]), PrefixesWire(ps[1..]), PrefixWire(p));
    }
  }

  lemma {:induction false} PrefixesWirePrefix(ps: seq<prefix64>, i: nat)
    requires Writable(ps) && i <= |ps|
    ensures Writable(ps[..i]) && |PrefixesWire(ps[..i])| <= |PrefixesWire(ps)|
    decreases |ps| - i
  {
    if i < |ps| {
      PrefixesWirePrefix(ps, i + 1);
      assert ps[..i + 1] == ps[..i] + [ps[i]];
      PrefixesWireSnoc(ps[..i], ps[i]);
    } else {
      assert ps[..i] == ps;
    }
  }

  /**
   Writes the prefixes of a block at the cursor. The result is false where the program
   would write behind the buffer.
   */
  method PutPrefixes(tx: array<byte>, at: nat, issued: seq<nat>, addrs: seq<nat>) returns (inside: bool, txp: nat)
    requires Known(issued, addrs) && at <= tx.Length
    modifies tx
    ensures inside <==> at + |PrefixesWire(DecodeAll(issued, addrs))| <= tx.Length
    ensures inside ==> txp == at + |PrefixesWire(DecodeAll(issued, addrs))|
    ensures inside ==> tx[..txp] == old(tx[..at]) + PrefixesWire(DecodeAll(issued, addrs))
  {
    ghost var ps, start := DecodeAll(issued, addrs), tx[..at];
    txp := at;
    var index := 0;
    while index < |addrs|
      invariant index <= |addrs| && Writable(ps[..index])
      invariant txp == at + |PrefixesWire(ps[..index])| <= tx.Length
      invariant tx[..txp] == start + PrefixesWire(ps[..index])
    {
      assert ps[..index + 1] == ps[..index] + [ps[index]];
      assert ps[index] in ps;
      PrefixesWireSnoc(ps[..index], ps[index]);
      PrefixesWirePrefix(ps, index + 1);
      ghost var sofar := tx[..txp];
      var prefix := Decode(issued[addrs[index]]);
      if txp + 1 + Chunks(Length(prefix)) > tx.Length {
        return false, txp;
      }
      var next := BuildNlri(tx, txp, prefix);
      assert tx[..next] == sofar + tx[txp..next];
      Assoc(start, PrefixesWire(ps[..index]), PrefixWire(ps[index]));
      txp, index := next, index + 1;
    }
    assert ps[..|addrs|] == ps;
    inside := true;
  }

  /** Stores a 16-bit word, most significant octet first. */
  method PutW16(tx: array<byte>, at: nat, w: uint16)
    requires at + 2 <= tx.Length
    modifies tx
    ensures [tx[at], tx[at + 1]] == Bytes2(w)
    ensures forall i | 0 <= i < tx.Length && i != at && i != at + 1 :: tx[i] == old(tx[i])
  {
    tx[at] := w / 0x100;
    tx[at + 1] := w % 0x100;
  }

  /** A message under construction, up to the end of its attributes; `size` are the two octets for its length. */
  function Started(size: seq<byte>, attributes: octets): seq<byte> {
    MARKER + size + [UPDATE] + Bytes2(0) + Bytes2(|attributes|) + attributes
  }

  lemma StartedInPlace(t: seq<byte>, attributes: octets)
    requires |t| == 23 + |attributes| && t[..16] == MARKER && t[18] == UPDATE && [t[19], t[20]] == Bytes2(0)
    requires [t[21], t[22]] == Bytes2(|attributes|) && t[23..] == attributes
    ensures t == Started([t[16], t[17]], attributes)
  {
    assert t == t[..16] + [t[16], t[17]] + [t[18]] + [t[19], t[20]] + [t[21], t[22]] + t[23..];
  }

  /** Everything in front of the prefixes, except for the length of the message. */
  method PutStart(tx: array<byte>, memory: seq<byte>, limit: nat, localPref: uint32)
    returns (ok: bool, txp: nat, ghost octet: byte)
    requires 23 + limit + 8 <= tx.Length <= TX_SIZE && tx[..16] == MARKER
    requires WellFramed(memory, limit, 0) && limit < |memory|
    modifies tx
    ensures ok <==> Scan(Rest(memory, limit, 0), ORIGIN).0.Some?
    ensures FirstOctet(Scan(Rest(memory, limit, 0), ORIGIN).0, octet)
    ensures ok ==>
              var attributes := Wires(IbgpAttrs(Rest(memory, limit, 0), octet, localPref));
              && |attributes| <= limit + 8 && txp == 23 + |attributes|
              && tx[..txp] == Started([tx[16], tx[17]], attributes)
  {
    tx[18] := UPDATE;
    PutW16(tx, 19, 0);
    ghost var front := tx[..23];
    assert front[..16] == MARKER && front[18] == UPDATE && [front[19], front[20]] == Bytes2(0);
    ok, txp, octet := SerializeIbgp(memory, limit, localPref, tx, 23);
    if !ok {
      return;
    }
    ghost var attributes := Wires(IbgpAttrs(Rest(memory, limit, 0), octet, localPref));
    ghost var t := tx[..txp];
    assert t == front + attributes;
    PutW16(tx, 21, txp - 23);
    assert tx[..txp][..16] == front[..16] && tx[..txp][23..] == attributes by {
      assert forall i | 0 <= i < 16 :: tx[i] == t[i];
      assert forall i | 23 <= i < txp :: tx[i] == t[i];
    }
    StartedInPlace(tx[..txp], attributes);
  }

  /** How building a message ends: with its length, in the serializer's assertion, or behind the end of the buffer. */
  datatype Built = Message(length: nat) | NoOrigin | BeyondBuffer

  /**
   Builds the message. The marker has been in the buffer since the start. The program
   looks neither at the limit of 4096 octets nor at the size of its buffer.
   */
  method BuildUpdate(tx: array<byte>, memory: seq<byte>, limit: nat, localPref: uint32, issued: seq<nat>,
      addrs: seq<nat>)
    returns (built: Built, ghost octet: byte)
    requires tx.Length == TX_SIZE && tx[..16] == MARKER
    requires WellFramed(memory, limit, 0) && limit < |memory| && limit <= 4096 && Known(issued, addrs)
    modifies tx
    ensures built == NoOrigin <==> Scan(Rest(memory, limit, 0), ORIGIN).0.None?
    ensures FirstOctet(Scan(Rest(memory, limit, 0), ORIGIN).0, octet)
    ensures built != NoOrigin ==>
              var attributes := Wires(IbgpAttrs(Rest(memory, limit, 0), octet, localPref));
              var nlri := PrefixesWire(DecodeAll(issued, addrs));
              && |attributes| <= limit + 8
              && (built == BeyondBuffer <==> HEADER + 4 + |attributes| + |nlri| > TX_SIZE)
              && (built.Message? ==> built.length <= TX_SIZE && tx[..built.length] == UpdateWire(attributes, nlri))
  {
    var ok, length;
    ok, length, octet := PutStart(tx, memory, limit, localPref);
    if !ok {
      return NoOrigin, octet;
    }
    ghost var attributes := Wires(IbgpAttrs(Rest(memory, limit, 0), octet, localPref));
    ghost var size, started := [tx[16], tx[17]], tx[..length];
    var inside;
    inside, length := PutPrefixes(tx, length, issued, addrs);
    if !inside {
      return BeyondBuffer, octet;
    }
    ghost var t: seq<byte> := tx[..length];
    PutW16(tx, 16, length);
    assert tx[..length] == t[16 := tx[16]][17 := tx[17]];
    SizeFilledIn(size, attributes, PrefixesWire(DecodeAll(issued, addrs)));
    built := Message(length);
  }

  // ---------------------------------------------------------------- what fits

  lemma {:induction false} PrefixesWireSize(ps: seq<prefix64>, low: nat)
    requires forall p <- ps :: 8 * low < Length(p) <= MAX_LENGTH
    ensures Writable(ps) && (low + 2) * |ps| <= |PrefixesWire(ps)| <= 4 * |ps|
  {
    if ps != [] {
      assert ps[0] in ps;
      PrefixesWireSize(ps[1..], low);
    }
  }

  /**
   A message of attributes of `limit` octets and n addresses stays inside the buffer
   whenever limit + 4 n is at most 8161.
   */
  lemma BlockFits(attributes: seq<byte>, limit: nat, issued: seq<nat>, addrs: seq<nat>)
    requires Known(issued, addrs) && |attributes| <= limit + 8 && limit + 4 * |addrs| <= 8161
    ensures HEADER + 4 + |attributes| + |PrefixesWire(DecodeAll(issued, addrs))| <= TX_SIZE
  {
    forall p <- DecodeAll(issued, addrs) ensures 0 < Length(p) <= MAX_LENGTH {
      var i :| 0 <= i < |addrs| && DecodeAll(issued, addrs)[i] == p;
      DecodedIsCanonical(issued[addrs[i]]);
    }
    PrefixesWireSize(DecodeAll(issued, addrs), 0);
  }

  /**
   A block of prefixes longer than 16 bits leaves the buffer, whatever the attributes, as
   soon as it has 2043 addresses.
   */
  lemma LongPrefixesOverrun(issued: seq<nat>, addrs: seq<nat>)
    requires Known(issued, addrs) && forall i | 0 <= i < |addrs| :: issued[addrs[i]] >= Shl(1, 17)
    ensures |PrefixesWire(DecodeAll(issued, addrs))| == 4 * |addrs|
    ensures HEADER + 4 + |PrefixesWire(DecodeAll(issued, addrs))| > TX_SIZE <==> |addrs| >= 2043
  {
    forall p <- DecodeAll(issued, addrs) ensures 16 < Length(p) <= MAX_LENGTH {
      var i :| 0 <= i < |addrs| && DecodeAll(issued, addrs)[i] == p;
      LongIndex(issued[addrs[i]]);
    }
    PrefixesWireSize(DecodeAll(issued, addrs), 2);
  }

  lemma LongIndex(ref: nat)
    requires Shl(1, 17) <= ref < Shl(1, 25)
    ensures 17 <= Length(Decode(ref)) <= MAX_LENGTH
  {
    ShlPositive(1, 17);
    EncodeDecode(ref);
    var l := Length(Decode(ref));
    EncodeInterval(l, Address(Decode(ref)));
    ShlMonotone(1, l + 1, 17);
  }

  lemma Powers()
    ensures Shl(1, 17) == 0x2_0000 && Shl(1, 24) == 0x100_0000
  {
    assert Shl(1, 8) == 0x100;
    ShlShl(1, 8, 8);
    ShlScale(0x100, 8);
    ShlShl(1, 16, 8);
    ShlScale(0x1_0000, 8);
  }

  /** A full address table of different prefixes of 24 bits: 16384 octets of prefixes for a buffer of 8192. */
  lemma FullTableOverruns() returns (issued: seq<nat>, addrs: seq<nat>)
    ensures |addrs| == 4096 && Known(issued, addrs)
    ensures forall i, j | 0 <= i < j < |addrs| :: issued[addrs[i]] != issued[addrs[j]]
    ensures |PrefixesWire(DecodeAll(issued, addrs))| == 16384
  {
    Powers();
    issued, addrs := seq(4096, i => 0x100_0000 + i), seq(4096, i => i);
    LongPrefixesOverrun(issued, addrs);
  }

  lemma SizeFilledIn(size: seq<byte>, attributes: octets, nlri: seq<byte>)
    requires |size| == 2 && HEADER + 4 + |attributes| + |nlri| < 0x1_0000
    ensures var n := Bytes2(HEADER + 4 + |attributes| + |nlri|);
            (Started(size, attributes) + nlri)[16 := n[0]][17 := n[1]] == UpdateWire(attributes, nlri)
  {
  }

  /**
   What a peer reads back. Any built message that fits the 4096 octets of the standard
   gives the peer the exported attributes, framed exactly, and the prefixes of the
   block's addresses in the block's order.
   */
  lemma AnnouncementRoundTrip(before: seq<byte>, attrs: seq<Attr>, octet: byte, localPref: uint32,
                              issued: seq<nat>, addrs: seq<nat>, after: seq<byte>)
    requires Known(issued, addrs)
    requires |Wires(IbgpAttrs(attrs, octet, localPref))|
             + |PrefixesWire(DecodeAll(issued, addrs))| <= 4096 - 23
    ensures var out := IbgpAttrs(attrs, octet, localPref);
            var msg := UpdateWire(Wires(out), PrefixesWire(DecodeAll(issued, addrs)));
            var stream := before + msg + after;
            && MessageAt(stream, |before|, |msg|)
            && var body := BodyOf(stream, |before|, |msg|);
               && WellFormed(body) && ParsePrefixes(WithdrawnOf(body)) == Some([])
               && ParseAttrs(AttributesOf(body), 0, |AttributesOf(body)|) == Some(out)
               && ParsePrefixes(NlriOf(body)) == Some(DecodeAll(issued, addrs))
  {
    var out := IbgpAttrs(attrs, octet, localPref);
    DecodeAllCanonical(issued, addrs);
    UpdateRoundTrip(before, [], Wires(out), DecodeAll(issued, addrs), after);
    assert PrefixesWire([]) == [];
    ParseWires(Wires(out), 0, |Wires(out)|, out) by { assert Wires(out)[0..|Wires(out)|] == Wires(out); }
  }
}
