/** UPDATE messages, section 4.3 of RFC 4271: building one for a block of prefixes, and taking one apart. */
module UpdateMessage {
  import opened Basics
  import opened Prefixes
  import opened Nlri
  import opened Attributes
  import opened Export

  const UPDATE: byte := 2
  const HEADER: nat := 19

  const MARKER: seq<byte> := [0xff, 0xff, 0xff, 0xff, 0xff, 0xff, 0xff, 0xff, 0xff, 0xff, 0xff, 0xff, 0xff, 0xff,
      0xff, 0xff]

  function Word16(bs: seq<byte>, at: nat): uint16
    requires at + 2 <= |bs|
  {
    0x100 * bs[at] as int + bs[at + 1]
  }

  /** What follows the message header: the withdrawn routes, the path attributes, and the prefixes announced. */
  function BodyWire(withdrawn: octets, attributes: octets, nlri: seq<byte>): (bs: seq<byte>)
    ensures |bs| == 4 + |withdrawn| + |attributes| + |nlri|
  {
    Bytes2(|withdrawn|) + withdrawn + Bytes2(|attributes|) + attributes + nlri
  }

  function MessageWire(body: seq<byte>): (bs: seq<byte>)
    requires HEADER + |body| < 0x1_0000
    ensures |bs| == HEADER + |body|
  {
    MARKER + Bytes2(HEADER + |body|) + [UPDATE] + body
  }

  /** A message that announces prefixes and withdraws none. */
  function UpdateWire(attributes: octets, nlri: seq<byte>): (bs: seq<byte>)
    requires HEADER + 4 + |attributes| + |nlri| < 0x1_0000
    ensures |bs| == HEADER + 4 + |attributes| + |nlri|
  {
    MessageWire(BodyWire([], attributes, nlri))
  }

  // ---------------------------------------------------------------- taking apart

  /** The parts of an UPDATE body. */
  datatype Fields = Fields(withdrawn: seq<prefix64>, attributes: seq<byte>, nlri: seq<prefix64>)

  function WithdrawnLength(body: seq<byte>): uint16
    requires |body| >= 2
  {
    Word16(body, 0)
  }

  function AttributesLength(body: seq<byte>): uint16
    requires |body| >= 2 && WithdrawnLength(body) + 4 <= |body|
  {
    Word16(body, 2 + WithdrawnLength(body))
  }

  predicate LengthsFit(body: seq<byte>) {
    && |body| >= 2 && WithdrawnLength(body) + 4 <= |body|
    && WithdrawnLength(body) + AttributesLength(body) + 4 <= |body|
  }

  function WithdrawnOf(body: seq<byte>): seq<byte>
    requires LengthsFit(body)
  {
    body[2..2 + WithdrawnLength(body)]
  }

  function AttributesOf(body: seq<byte>): seq<byte>
    requires LengthsFit(body)
  {
    body[4 + WithdrawnLength(body)..4 + WithdrawnLength(body) + AttributesLength(body)]
  }

  function NlriOf(body: seq<byte>): seq<byte>
    requires LengthsFit(body)
  {
    body[4 + WithdrawnLength(body) + AttributesLength(body)..]
  }

  predicate WellFormed(body: seq<byte>) {
    LengthsFit(body) && ParsePrefixes(WithdrawnOf(body)).Some? && ParsePrefixes(NlriOf(body)).Some?
  }

  /** Reads a list of prefixes to its end. */
  method ReadPrefixes(bs: seq<byte>) returns (ps: seq<prefix64>)
    requires ParsePrefixes(bs).Some?
    ensures ps == ParsePrefixes(bs).value
  {
    var at := 0;
    ps := [];
    assert bs[0..] == bs;
    while at < |bs|
      invariant at <= |bs| && ParsePrefixes(bs[at..]).Some?
      invariant ps + ParsePrefixes(bs[at..]).value == ParsePrefixes(bs).value
    {
      ListStep(bs, at);
      var p, next := NlriIter(bs, at);
      ps, at := ps + [p], next;
    }
  }

  method ParseUpdate(body: seq<byte>) returns (f: Fields)
    requires WellFormed(body) && |body| <= 4096
    ensures f == Fields(ParsePrefixes(WithdrawnOf(body)).value, AttributesOf(body), ParsePrefixes(NlriOf(body)).value)
  {
    var withdrawLength := Word16(body, 0);
    var attributesLength := Word16(body, 2 + withdrawLength);
    var nlriAt := 4 + withdrawLength + attributesLength;
    var nlriLength := (|body| - withdrawLength - attributesLength - 4) % 0x1_0000;
    assert body[nlriAt..nlriAt + nlriLength] == NlriOf(body);
    var nlri := ReadPrefixes(body[nlriAt..nlriAt + nlriLength]);
    var withdrawn := ReadPrefixes(body[2..2 + withdrawLength]);
    f := Fields(withdrawn, body[4 + withdrawLength..nlriAt], nlri);
  }

  /** Does a message with a marker, an UPDATE type and this length start here? */
  predicate MessageAt(stream: seq<byte>, at: nat, length: nat) {
    && HEADER <= length && at + length <= |stream|
    && stream[at..at + 16] == MARKER && Word16(stream, at + 16) == length && stream[at + 18] == UPDATE
  }

  function BodyOf(stream: seq<byte>, at: nat, length: nat): seq<byte>
    requires MessageAt(stream, at, length)
  {
    stream[at + HEADER..at + length]
  }

  lemma Word16OfBytes(w: uint16, bs: seq<byte>, at: nat)
    requires at + 2 <= |bs| && bs[at] == Bytes2(w)[0] && bs[at + 1] == Bytes2(w)[1]
    ensures Word16(bs, at) == w
  {
  }

  lemma PartsInPlace(withdrawn: octets, attributes: octets, nlri: seq<byte>)
    ensures var body := BodyWire(withdrawn, attributes, nlri);
            && body[0..2] == Bytes2(|withdrawn|) && body[2..2 + |withdrawn|] == withdrawn
            && body[2 + |withdrawn|..4 + |withdrawn|] == Bytes2(|attributes|)
            && body[4 + |withdrawn|..4 + |withdrawn| + |attributes|] == attributes
            && body[4 + |withdrawn| + |attributes|..] == nlri
  {
  }

  /** A body gives back its three parts, whatever they are. */
  lemma BodyRoundTrip(withdrawn: octets, attributes: octets, nlri: seq<byte>)
    ensures var body := BodyWire(withdrawn, attributes, nlri);
            && LengthsFit(body) && WithdrawnOf(body) == withdrawn
            && AttributesOf(body) == attributes && NlriOf(body) == nlri
  {
    var body, n := BodyWire(withdrawn, attributes, nlri), |withdrawn|;
    PartsInPlace(withdrawn, attributes, nlri);
    assert body[0] == body[0..2][0] && body[1] == body[0..2][1];
    Word16OfBytes(n, body, 0);
    assert body[2 + n] == body[2 + n..4 + n][0] && body[3 + n] == body[2 + n..4 + n][1];
    Word16OfBytes(|attributes|, body, 2 + n);
  }

  lemma MessageInStream(before: seq<byte>, body: seq<byte>, after: seq<byte>)
    requires HEADER + |body| < 0x1_0000
    ensures var msg := MessageWire(body);
            var stream := before + msg + after;
            MessageAt(stream, |before|, |msg|) && BodyOf(stream, |before|, |msg|) == body
  {
    var msg := MessageWire(body);
    var stream, at := before + msg + after, |before|;
    assert stream[at..at + |msg|] == msg;
    forall k | 0 <= k < |msg| ensures stream[at + k] == msg[k] {}
    assert msg[..16] == MARKER;
    assert stream[at..at + 16] == msg[..16];
    assert msg[18] == UPDATE && msg[16] == Bytes2(|msg|)[0] && msg[17] == Bytes2(|msg|)[1];
    assert stream[at + 16] == msg[16] && stream[at + 17] == msg[17] && stream[at + 18] == msg[18];
    Word16OfBytes(|msg|, stream, at + 16);
    assert msg[HEADER..] == body;
    assert stream[at + HEADER..at + |msg|] == msg[HEADER..];
  }

  ghost predicate Canonical(ps: seq<prefix64>) {
    forall p <- ps :: Length(p) <= 32 && MaskedPrefix(p) == p
  }

  /**
   UPDATE round trip. Wherever a message with any prefixes withdrawn, any attributes and
   any prefixes announced lies in a stream, it is framed with its own length, and its body
   gives back exactly the prefixes withdrawn, the attribute octets and the prefixes
   announced, in order.
   */
  lemma UpdateRoundTrip(before: seq<byte>, withdrawn: seq<prefix64>, attributes: octets, prefixes: seq<prefix64>,
      after: seq<byte>)
    requires Canonical(withdrawn) && Canonical(prefixes)
    requires 23 + |PrefixesWire(withdrawn)| + |attributes| + |PrefixesWire(prefixes)| < 0x1_0000
    ensures var body := Bytes2(|PrefixesWire(withdrawn)|) + PrefixesWire(withdrawn)
                        + Bytes2(|attributes|) + attributes + PrefixesWire(prefixes);
            && MessageAt(before + MessageWire(body) + after, |before|, 19 + |body|)
            && BodyOf(before + MessageWire(body) + after, |before|, 19 + |body|) == body
            && WellFormed(body) && ParsePrefixes(WithdrawnOf(body)) == Some(withdrawn)
            && AttributesOf(body) == attributes && ParsePrefixes(NlriOf(body)) == Some(prefixes)
  {
    PrefixListRoundTrip(withdrawn);
    PrefixListRoundTrip(prefixes);
    MessageInStream(before, BodyWire(PrefixesWire(withdrawn), attributes, PrefixesWire(prefixes)), after);
    BodyRoundTrip(PrefixesWire(withdrawn), attributes, PrefixesWire(prefixes));
  }
}
