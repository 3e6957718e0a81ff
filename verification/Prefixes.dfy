/** IPv4 prefixes: the 64-bit form, the bit-packed table index, and the wire form. */
module Prefixes {
  import opened Basics

  const TWO_32: nat := 0x1_0000_0000
  const RIBSIZE: nat := 0x400_0000
  const MAX_LENGTH: nat := 24

  /** A length above a 32-bit address, as the parser and the table exchange it. */
  type prefix64 = la: int | 0 <= la < 0x100_0000_0000

  function Length(la: prefix64): byte { la / TWO_32 }

  function Address(la: prefix64): uint32 { la % TWO_32 }

  function Join(length: byte, address: uint32): (la: prefix64)
    ensures Length(la) == length && Address(la) == address
  {
    length * TWO_32 + address
  }

  /** A left shift, with no bound on the result. */
  function Shl(n: nat, k: nat): nat {
    if k == 0 then n else 2 * Shl(n, k - 1)
  }

  /** A right shift. */
  function Shr(n: nat, k: nat): nat {
    if k == 0 then n else Shr(n, k - 1) / 2
  }

  /** The position of the highest set bit. */
  function HighBit(ref: nat): nat
    requires ref > 0
  {
    if ref == 1 then 0 else HighBit(ref / 2) + 1
  }

  /** The table index: a 1 bit followed by the leading `l` bits of the address. */
  function Encode(l: nat, a: uint32): nat
    requires l <= MAX_LENGTH
  {
    Shr(TWO_32 + a, 32 - l)
  }

  /**
   The prefix of a table index. An index of 1, the default route, would shift by the full
   width and is not decoded.
   */
  function Decode(ref: nat): prefix64
    requires 2 <= ref < Shl(1, 25)
  {
    HighBitOf(ref);
    var l := HighBit(ref);
    ShlMonotone(1, 25, l);
    Join(l, Shl(ref, 32 - l) % TWO_32)
  }

  /** The address with everything after the leading `l` bits cleared. */
  function Masked(l: nat, a: uint32): (m: uint32)
    requires l <= 32
  {
    ShrBounds(a, 32 - l);
    Shl(Shr(a, 32 - l), 32 - l)
  }

  function MaskedPrefix(la: prefix64): prefix64
    requires Length(la) <= 32
  {
    Join(Length(la), Masked(Length(la), Address(la)))
  }

  // ---------------------------------------------------------------- shifts

  lemma {:induction false} ShlAdd(m: nat, n: nat, k: nat)
    ensures Shl(m + n, k) == Shl(m, k) + Shl(n, k)
  {
    if k > 0 { ShlAdd(m, n, k - 1); }
  }

  lemma {:induction false} ShlShl(n: nat, i: nat, j: nat)
    ensures Shl(Shl(n, i), j) == Shl(n, i + j)
  {
    if j > 0 { ShlShl(n, i, j - 1); }
  }

  lemma {:induction false} ShlPositive(n: nat, k: nat)
    ensures n <= Shl(n, k)
  {
    if k > 0 { ShlPositive(n, k - 1); }
  }

  lemma ShlLess(m: nat, n: nat, k: nat)
    requires m < n
    ensures Shl(m, k) + Shl(1, k) <= Shl(n, k)
  {
    ShlAdd(m, 1, k);
    ShlAdd(m + 1, n - m - 1, k);
  }

  lemma {:induction false} ShlMonotone(n: nat, i: nat, j: nat)
    ensures i <= j ==> Shl(n, i) <= Shl(n, j)
  {
    if i < j { ShlMonotone(n, i, j - 1); }
  }

  /** A right shift drops less than one unit of the last place kept. */
  lemma {:induction false} ShrBounds(n: nat, k: nat)
    ensures Shl(Shr(n, k), k) <= n < Shl(Shr(n, k), k) + Shl(1, k)
  {
    if k > 0 {
      ShrBounds(n, k - 1);
      var q := Shr(n, k - 1);
      ShlAdd(q / 2, q / 2, k - 1);
      ShlAdd(q / 2 + q / 2, q % 2, k - 1);
    }
  }

  lemma ShrUnique(n: nat, k: nat, q: nat)
    requires Shl(q, k) <= n < Shl(q, k) + Shl(1, k)
    ensures Shr(n, k) == q
  {
    ShrBounds(n, k);
    if Shr(n, k) < q { ShlLess(Shr(n, k), q, k); }
    if q < Shr(n, k) { ShlLess(q, Shr(n, k), k); }
  }

  lemma TwoTo32(l: nat)
    requires l <= 32
    ensures Shl(Shl(1, l), 32 - l) == TWO_32
  {
    ShlShl(1, l, 32 - l);
    ShlShl(1, 8, 8);
    ShlScale(0x100, 8);
    ShlShl(1, 16, 16);
    ShlScale(0x1_0000, 16);
  }

  lemma {:induction false} ShlScale(n: nat, k: nat)
    ensures Shl(n, k) == n * Shl(1, k)
  {
    if k > 0 { ShlScale(n, k - 1); }
  }

  lemma {:induction false} HighBitOf(ref: nat)
    requires ref > 0
    ensures Shl(1, HighBit(ref)) <= ref < 2 * Shl(1, HighBit(ref))
  {
    if ref > 1 { HighBitOf(ref / 2); }
  }

  lemma HighBitUnique(ref: nat, l: nat)
    requires Shl(1, l) <= ref < Shl(1, l + 1)
    ensures HighBit(ref) == l
  {
    ShlPositive(1, l);
    HighBitOf(ref);
    ShlMonotone(1, l + 1, HighBit(ref));
    ShlMonotone(1, HighBit(ref) + 1, l);
  }

  // ---------------------------------------------------------------- the index

  /** An index is the 1 bit of its length plus the leading address bits. */
  lemma EncodeParts(l: nat, a: uint32)
    requires l <= MAX_LENGTH
    ensures Encode(l, a) == Shl(1, l) + Shr(a, 32 - l)
    ensures Shr(a, 32 - l) < Shl(1, l)
  {
    var k, q := 32 - l, Shr(a, 32 - l);
    TwoTo32(l);
    ShrBounds(a, k);
    ShlAdd(Shl(1, l), q, k);
    ShrUnique(TWO_32 + a, k, Shl(1, l) + q);
    if Shl(1, l) < q { ShlLess(Shl(1, l), q, k); }
  }

  lemma PartsInRange(l: nat, x: nat)
    requires 1 <= l <= MAX_LENGTH && x < Shl(1, l)
    ensures 2 <= Shl(1, l) + x < Shl(1, 25)
  {
    ShlMonotone(1, 1, l);
    ShlMonotone(1, l + 1, 25);
  }

  lemma PartsAtTop(l: nat, x: nat)
    requires 1 <= l <= MAX_LENGTH && x < Shl(1, l)
    ensures Shl(x, 32 - l) < TWO_32 && Shl(Shl(1, l) + x, 32 - l) == TWO_32 + Shl(x, 32 - l)
  {
    TwoTo32(l);
    ShlPositive(1, 32 - l);
    ShlLess(x, Shl(1, l), 32 - l);
    ShlAdd(Shl(1, l), x, 32 - l);
  }

  /** Splitting an index into its length and its leading bits, and putting the bits back at the top of an address. */
  lemma DecodeParts(l: nat, x: nat)
    requires 1 <= l <= MAX_LENGTH && x < Shl(1, l)
    ensures 2 <= Shl(1, l) + x < Shl(1, 25)
    ensures Shl(x, 32 - l) < TWO_32
    ensures Decode(Shl(1, l) + x) == Join(l, Shl(x, 32 - l))
  {
    PartsInRange(l, x);
    PartsAtTop(l, x);
    var ref, y := Shl(1, l) + x, Shl(x, 32 - l);
    assert HighBit(ref) == l by { HighBitUnique(ref, l); }
    assert Shl(ref, 32 - l) % TWO_32 == y by { TopBitDropped(y); }
  }

  lemma TopBitDropped(y: nat)
    requires y < TWO_32
    ensures (TWO_32 + y) % TWO_32 == y
  {
  }

  /** Every length owns its own interval of indices, all of them inside the table. */
  lemma EncodeInterval(l: nat, a: uint32)
    requires l <= MAX_LENGTH
    ensures Shl(1, l) <= Encode(l, a) < Shl(1, l + 1) <= Shl(1, 25) < 0x400_0000 == RIBSIZE
  {
    EncodeParts(l, a);
    ShlMonotone(1, l + 1, 25);
    ShlShl(1, 12, 13);
    assert Shl(1, 12) == 4096;
  }

  /** Two prefixes share an index exactly when their lengths and their leading bits agree. */
  lemma EncodeCollides(l: nat, a: uint32, l': nat, a': uint32)
    requires l <= MAX_LENGTH && l' <= MAX_LENGTH
    ensures Encode(l, a) == Encode(l', a') <==> l == l' && Shr(a, 32 - l) == Shr(a', 32 - l')
  {
    EncodeParts(l, a);
    EncodeParts(l', a');
    HighBitUnique(Encode(l, a), l);
    HighBitUnique(Encode(l', a'), l');
  }

  /** Decoding an encoded prefix clears its host bits and nothing else. */
  lemma DecodeEncode(l: nat, a: uint32)
    requires 1 <= l <= MAX_LENGTH
    ensures 2 <= Encode(l, a) < Shl(1, 25)
    ensures Decode(Encode(l, a)) == Join(l, Masked(l, a))
  {
    EncodeParts(l, a);
    DecodeParts(l, Shr(a, 32 - l));
  }

  /** Encoding a decoded index gives the index back. */
  lemma EncodeDecode(ref: nat)
    requires 2 <= ref < Shl(1, 25)
    ensures 1 <= Length(Decode(ref)) <= MAX_LENGTH
    ensures Encode(Length(Decode(ref)), Address(Decode(ref))) == ref
  {
    HighBitOf(ref);
    var l := HighBit(ref);
    ShlMonotone(1, 25, l);
    var x := ref - Shl(1, l);
    DecodeParts(l, x);
    ShlPositive(1, 32 - l);
    ShrUnique(Shl(x, 32 - l), 32 - l, x);
    EncodeParts(l, Shl(x, 32 - l));
  }

  /** Masking keeps the leading bits and clears the others, so masking twice is masking once. */
  lemma MaskedKeepsLeadingBits(l: nat, a: uint32)
    requires l <= 32
    ensures Shr(Masked(l, a), 32 - l) == Shr(a, 32 - l)
    ensures Masked(l, Masked(l, a)) == Masked(l, a)
  {
    ShrBounds(a, 32 - l);
    ShlPositive(1, 32 - l);
    ShrUnique(Masked(l, a), 32 - l, Shr(a, 32 - l));
  }

  /** An address that is clear beyond `l` bits is clear beyond more. */
  lemma MaskedWider(l: nat, m: nat, a: uint32)
    requires l <= m <= 32 && Masked(l, a) == a
    ensures Masked(m, a) == a
  {
    var x := Shl(Shr(a, 32 - l), m - l);
    ShlShl(Shr(a, 32 - l), m - l, 32 - m);
    ShlPositive(1, 32 - m);
    ShrUnique(a, 32 - m, x);
  }
}
