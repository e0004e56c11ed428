/** Vectors of bytes read and written bit by bit, as scramble_model.cc handles its data. */
module ByteVectors {
  import opened Bits

  type Byte = b: BitVec | |b| == 8 witness Zeros(8)

  type Vec = seq<Byte>

  function NumBytes(width: nat): nat {
    (width + 7) / 8
  }

  function ZeroBytes(n: nat): (v: Vec)
    ensures |v| == n
  {
    seq(n, _ => Zeros(8))
  }

  /** Bit p of a vector, false past its end. */
  predicate Bit(v: Vec, p: nat) {
    v != [] && if p < 8 then v[0][p] else Bit(v[1..], p - 8)
  }

  lemma {:induction false} BitAt(v: Vec, p: nat)
    requires p < 8 * |v|
    ensures Bit(v, p) == v[p / 8][p % 8]
    decreases p
  {
    if p >= 8 { BitAt(v[1..], p - 8); }
  }

  lemma {:induction false} NoBitPastEnd(v: Vec, p: nat)
    requires p >= 8 * |v|
    ensures !Bit(v, p)
    decreases |v|
  {
    if v != [] { NoBitPastEnd(v[1..], p - 8); }
  }

  lemma ZeroBytesClear(n: nat)
    ensures forall p: nat :: !Bit(ZeroBytes(n), p)
  {
    forall p: nat ensures !Bit(ZeroBytes(n), p) {
      if p < 8 * n { BitAt(ZeroBytes(n), p); } else { NoBitPastEnd(ZeroBytes(n), p); }
    }
  }

  /** The first bits of a vector. */
  function LowBits(v: Vec, width: nat): (x: BitVec)
    ensures |x| == width
  {
    seq(width, i requires 0 <= i < width => Bit(v, i))
  }

  /** The right number of bytes for a width, and no bit set past it. */
  ghost predicate Clean(v: Vec, width: nat) {
    |v| == NumBytes(width) && forall p: nat | p >= width :: !Bit(v, p)
  }

  /** Vectors of one length with equal bits are equal. */
  lemma {:induction false} SameBits(a: Vec, b: Vec)
    requires |a| == |b| && forall p: nat :: Bit(a, p) == Bit(b, p)
    ensures a == b
    decreases |a|
  {
    if a != [] {
      forall p: nat ensures Bit(a[1..], p) == Bit(b[1..], p) {
        assert Bit(a, p + 8) == Bit(b, p + 8);
      }
      SameBits(a[1..], b[1..]);
      forall p | 0 <= p < 8 ensures a[0][p] == b[0][p] {
        assert Bit(a, p) == Bit(b, p);
      }
      assert a[0] == b[0];
      assert a == [a[0]] + a[1..] && b == [b[0]] + b[1..];
    }
  }

  /** Clean vectors of one width are equal when their bits are. */
  lemma CleanSame(a: Vec, b: Vec, width: nat)
    requires Clean(a, width) && Clean(b, width) && LowBits(a, width) == LowBits(b, width)
    ensures a == b
  {
    forall p: nat ensures Bit(a, p) == Bit(b, p) {
      if p < width { assert LowBits(a, width)[p] == LowBits(b, width)[p]; }
    }
    SameBits(a, b);
  }

  /** read_vector_bit */
  method ReadVectorBit(vec: Vec, bitPos: nat) returns (bit: bool)
    requires bitPos / 8 < |vec|
    ensures bit == Bit(vec, bitPos)
  {
    BitAt(vec, bitPos);
    bit := vec[bitPos / 8][bitPos % 8];
  }

  /** or_vector_bit */
  method OrVectorBit(vec: Vec, bitPos: nat, bit: bool) returns (r: Vec)
    requires bitPos / 8 < |vec|
    ensures |r| == |vec|
    ensures forall p: nat :: Bit(r, p) == (Bit(vec, p) || (p == bitPos && bit))
  {
    var k, s := bitPos / 8, bitPos % 8;
    r := vec[k := vec[k][s := vec[k][s] || bit]];
    forall p: nat ensures Bit(r, p) == (Bit(vec, p) || (p == bitPos && bit)) {
      if p < 8 * |vec| {
        BitAt(r, p);
        BitAt(vec, p);
      } else {
        NoBitPastEnd(r, p);
        NoBitPastEnd(vec, p);
      }
    }
  }

  /** xor_vectors */
  function XorVectors(a: Vec, b: Vec): (r: Vec)
    requires |a| == |b|
    ensures |r| == |a|
  {
    seq(|a|, i requires 0 <= i < |a| => Xor(a[i], b[i]))
  }

  lemma XorVectorsBit(a: Vec, b: Vec, p: nat)
    requires |a| == |b|
    ensures Bit(XorVectors(a, b), p) == (Bit(a, p) != Bit(b, p))
  {
    if p < 8 * |a| {
      BitAt(a, p);
      BitAt(b, p);
      BitAt(XorVectors(a, b), p);
    } else {
      NoBitPastEnd(a, p);
      NoBitPastEnd(b, p);
      NoBitPastEnd(XorVectors(a, b), p);
    }
  }

  /** Bit by bit, and what is clear past the width stays so. */
  lemma XorVectorsBits(a: Vec, b: Vec, width: nat)
    requires |a| == |b|
    ensures LowBits(XorVectors(a, b), width) == Xor(LowBits(a, width), LowBits(b, width))
    ensures Clean(a, width) && Clean(b, width) ==> Clean(XorVectors(a, b), width)
  {
    forall p: nat ensures Bit(XorVectors(a, b), p) == (Bit(a, p) != Bit(b, p)) {
      XorVectorsBit(a, b, p);
    }
  }

  /** byte_reverse_vector */
  function ByteReverse(v: Vec): (r: Vec)
    ensures |r| == |v|
  {
    seq(|v|, i requires 0 <= i < |v| => v[|v| - 1 - i])
  }

  /** Nibble i of a vector: half of byte i / 2. */
  function NibbleOf(v: Vec, i: nat): (r: BitVec)
    requires i / 2 < |v|
    ensures |r| == 4
  {
    if i % 2 == 1 then v[i / 2][4..] else v[i / 2][..4]
  }

  lemma NibbleBits(v: Vec, i: nat, k: nat)
    requires i / 2 < |v| && k < 4
    ensures NibbleOf(v, i)[k] == Bit(v, 4 * i + k)
  {
    BitAt(v, 4 * i + k);
  }

  /** Or four bits into nibble i. */
  method OrNibble(v: Vec, i: nat, nibble: BitVec) returns (r: Vec)
    requires i / 2 < |v| && |nibble| == 4
    ensures |r| == |v|
    ensures forall p: nat :: Bit(r, p) == (Bit(v, p) || (4 * i <= p < 4 * i + 4 && nibble[p - 4 * i]))
  {
    var shift := if i % 2 == 1 then 4 else 0;
    r := v[i / 2 := Or(v[i / 2], Shl(nibble, shift, 8))];
    forall p: nat ensures Bit(r, p) == (Bit(v, p) || (4 * i <= p < 4 * i + 4 && nibble[p - 4 * i])) {
      if p < 8 * |v| {
        BitAt(r, p);
        BitAt(v, p);
      } else {
        NoBitPastEnd(r, p);
        NoBitPastEnd(v, p);
      }
    }
  }

  lemma {:induction false} BitOfCat(a: Vec, b: Vec, p: nat)
    ensures Bit(a + b, p) == if p < 8 * |a| then Bit(a, p) else Bit(b, p - 8 * |a|)
    decreases |a|
  {
    if a == [] {
      assert a + b == b;
    } else if p >= 8 {
      assert (a + b)[1..] == a[1..] + b;
      BitOfCat(a[1..], b, p - 8);
    }
  }

  /** The bytes of a vector of bits, least significant byte first. */
  function LittleEndian(w: BitVec): (v: Vec)
    requires |w| % 8 == 0
    ensures |v| == |w| / 8
  {
    if w == [] then [] else [w[..8]] + LittleEndian(w[8..])
  }

  lemma {:induction false} LittleEndianBit(w: BitVec, p: nat)
    requires |w| % 8 == 0 && p < |w|
    ensures Bit(LittleEndian(w), p) == w[p]
    decreases p
  {
    if p >= 8 { LittleEndianBit(w[8..], p - 8); }
  }

  lemma ReverseTwice(v: Vec)
    ensures ByteReverse(ByteReverse(v)) == v
  {
  }

  /** Or a byte into byte k of a vector. */
  lemma OrByteBits(v: Vec, k: nat, b: Byte, p: nat)
    requires k < |v|
    ensures Bit(v[k := Or(v[k], b)], p) == (Bit(v, p) || (8 * k <= p < 8 * k + 8 && b[p - 8 * k]))
  {
    var r := v[k := Or(v[k], b)];
    if p < 8 * |v| {
      BitAt(r, p);
      BitAt(v, p);
    } else {
      NoBitPastEnd(r, p);
      NoBitPastEnd(v, p);
    }
  }
}
