/** Bit vectors of any width, least significant bit first. */
module Bits {

  type BitVec = seq<bool>

  /** Bitwise exclusive or; a shorter second operand is extended with zeros. */
  function Xor(a: BitVec, b: BitVec): (r: BitVec)
    ensures |r| == |a|
  {
    seq(|a|, i requires 0 <= i < |a| => a[i] != (i < |b| && b[i]))
  }

  function Zeros(n: nat): (r: BitVec)
    ensures |r| == n
  {
    seq(n, _ => false)
  }

  /** Bitwise or; a shorter second operand is extended with zeros. */
  function Or(a: BitVec, b: BitVec): (r: BitVec)
    ensures |r| == |a|
  {
    seq(|a|, i requires 0 <= i < |a| => a[i] || (i < |b| && b[i]))
  }

  /** Logical shift towards bit 0. */
  function Shr(a: BitVec, n: nat): (r: BitVec)
    ensures |r| == |a|
  {
    seq(|a|, i requires 0 <= i < |a| => i + n < |a| && a[i + n])
  }

  /** Shift of a vector to bit n of a vector of the given width; what passes the end is lost. */
  function Shl(a: BitVec, n: nat, width: nat): (r: BitVec)
    ensures |r| == width
  {
    seq(width, i requires 0 <= i < width => n <= i < n + |a| && a[i - n])
  }

  /** Exclusive or with the same operand twice changes nothing. */
  lemma XorTwice(a: BitVec, k: BitVec)
    ensures Xor(Xor(a, k), k) == a
  {
  }
}

/** Nibbles and the 4-bit PRESENT S-box, shared by the scrambling network and the cipher. */
module Sbox {
  import opened Bits

  type Nib = n: nat | n < 16

  function Weight(b: bool, w: nat): nat {
    if b then w else 0
  }

  /** The value of four bits. */
  function Value(b0: bool, b1: bool, b2: bool, b3: bool): Nib {
    Weight(b0, 1) + Weight(b1, 2) + Weight(b2, 4) + Weight(b3, 8)
  }

  /** Bit k of a nibble. */
  predicate NibBit(v: Nib, k: nat) {
    if k == 0 then v % 2 == 1
    else if k == 1 then v / 2 % 2 == 1
    else if k == 2 then v / 4 % 2 == 1
    else v >= 8
  }

  lemma ValueOfBits(v: Nib)
    ensures Value(NibBit(v, 0), NibBit(v, 1), NibBit(v, 2), NibBit(v, 3)) == v
  {
  }

  lemma BitsOfValue(b0: bool, b1: bool, b2: bool, b3: bool)
    ensures var v := Value(b0, b1, b2, b3);
            NibBit(v, 0) == b0 && NibBit(v, 1) == b1 && NibBit(v, 2) == b2 && NibBit(v, 3) == b3
  {
  }

  /** PRESENT_SBOX4 */
  function Present4(n: Nib): Nib {
    match n
    case 0 => 0xc case 1 => 0x5 case 2 => 0x6 case 3 => 0xb
    case 4 => 0x9 case 5 => 0x0 case 6 => 0xa case 7 => 0xd
    case 8 => 0x3 case 9 => 0xe case 10 => 0xf case 11 => 0x8
    case 12 => 0x4 case 13 => 0x7 case 14 => 0x1 case _ => 0x2
  }

  /** PRESENT_SBOX4_INV */
  function Present4Inv(n: Nib): Nib {
    match n
    case 0 => 0x5 case 1 => 0xe case 2 => 0xf case 3 => 0x8
    case 4 => 0xc case 5 => 0x1 case 6 => 0x2 case 7 => 0xd
    case 8 => 0xb case 9 => 0x4 case 10 => 0x6 case 11 => 0x3
    case 12 => 0x0 case 13 => 0x7 case 14 => 0x9 case _ => 0xa
  }

  /** The encryption table or its inverse. */
  function PresentTable(inv: bool): Nib -> Nib {
    if inv then Present4Inv else Present4
  }

  lemma PresentTablesInverse(inv: bool, n: Nib)
    ensures PresentTable(!inv)(PresentTable(inv)(n)) == n
  {
  }

  /** Four bits through a table. */
  function SboxNibble(table: Nib -> Nib, x: BitVec): (r: BitVec)
    requires |x| == 4
    ensures |r| == 4
  {
    var v := table(Value(x[0], x[1], x[2], x[3]));
    [NibBit(v, 0), NibBit(v, 1), NibBit(v, 2), NibBit(v, 3)]
  }

  lemma SboxNibbleInverse(table: Nib -> Nib, back: Nib -> Nib, x: BitVec)
    requires |x| == 4 && forall n: Nib :: back(table(n)) == n
    ensures SboxNibble(back, SboxNibble(table, x)) == x
  {
    ValueOfBits(table(Value(x[0], x[1], x[2], x[3])));
    BitsOfValue(x[0], x[1], x[2], x[3]);
  }

  /** Every whole nibble goes through the table; bits beyond the last whole nibble stay. */
  function SboxLayer(table: Nib -> Nib, x: BitVec): (r: BitVec)
    ensures |r| == |x|
  {
    if |x| < 4 then x else SboxNibble(table, x[..4]) + SboxLayer(table, x[4..])
  }

  /** The layers of two inverse tables undo each other at every width. */
  lemma {:induction false} SboxLayersInverse(table: Nib -> Nib, back: Nib -> Nib, x: BitVec)
    requires forall n: Nib :: back(table(n)) == n
    ensures SboxLayer(back, SboxLayer(table, x)) == x
    decreases |x|
  {
    if |x| >= 4 {
      var a, b := SboxNibble(table, x[..4]), SboxLayer(table, x[4..]);
      assert (a + b)[..4] == a && (a + b)[4..] == b;
      SboxNibbleInverse(table, back, x[..4]);
      SboxLayersInverse(table, back, x[4..]);
    }
  }

  /** Nibble j of the result depends on nibble j of the argument alone. */
  lemma {:induction false} SboxLayerAt(table: Nib -> Nib, x: BitVec, j: nat)
    requires 4 * j + 4 <= |x|
    ensures SboxLayer(table, x)[4 * j..4 * j + 4] == SboxNibble(table, x[4 * j..4 * j + 4])
    decreases j
  {
    var a, b := SboxNibble(table, x[..4]), SboxLayer(table, x[4..]);
    if j > 0 {
      SboxLayerAt(table, x[4..], j - 1);
      assert (a + b)[4 * j..4 * j + 4] == b[4 * (j - 1)..4 * (j - 1) + 4];
      assert x[4..][4 * (j - 1)..4 * (j - 1) + 4] == x[4 * j..4 * j + 4];
    }
  }

  /** Bits beyond the last whole nibble are copied. */
  lemma {:induction false} SboxLayerTail(table: Nib -> Nib, x: BitVec, i: nat)
    requires |x| / 4 * 4 <= i < |x|
    ensures SboxLayer(table, x)[i] == x[i]
    decreases i
  {
    if |x| >= 4 {
      SboxLayerTail(table, x[4..], i - 4);
    }
  }

  function Nibble(x: BitVec, i: nat): (r: BitVec)
    requires 4 * i + 4 <= |x|
    ensures |r| == 4
  {
    x[4 * i..4 * i + 4]
  }

  /** y is x with every whole nibble through the table and the remaining bits copied. */
  predicate Substituted(table: Nib -> Nib, x: BitVec, y: BitVec) {
    && |x| == |y|
    && (forall i | 0 <= i < |x| / 4 :: Nibble(y, i) == SboxNibble(table, Nibble(x, i)))
    && (forall p | |x| / 4 * 4 <= p < |x| :: y[p] == x[p])
  }

  lemma LayerSubstitutes(table: Nib -> Nib, x: BitVec)
    ensures Substituted(table, x, SboxLayer(table, x))
  {
    var y := SboxLayer(table, x);
    forall i | 0 <= i < |x| / 4 ensures Nibble(y, i) == SboxNibble(table, Nibble(x, i)) {
      SboxLayerAt(table, x, i);
    }
    forall p | |x| / 4 * 4 <= p < |x| ensures y[p] == x[p] {
      SboxLayerTail(table, x, p);
    }
  }
}
