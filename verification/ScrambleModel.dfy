/** scramble_model.cc: the scrambling of addresses and data, on vectors of bytes, refining the
    substitution/permutation network on vectors of bits. */
module ScrambleModel {
  import opened Bits
  import opened ByteVectors
  import opened Sbox
  import SubstPerm

  const ADDR_ROUNDS := 2
  const DATA_ROUNDS := 2
  const PRINCE_HALF_ROUNDS := 3
  const PRINCE_WIDTH := 64

  // ---------------------------------------------------------------- the layers

  /** scramble_sbox_layer */
  method ScrambleSboxLayer(input: Vec, bitWidth: nat, table: Nib -> Nib) returns (out: Vec)
    requires |input| == NumBytes(bitWidth)
    ensures |out| == |input| && LowBits(out, bitWidth) == SboxLayer(table, LowBits(input, bitWidth))
    ensures Clean(input, bitWidth) ==> Clean(out, bitWidth)
  {
    LayerSubstitutes(table, LowBits(input, bitWidth));
    out := Substitute(input, bitWidth, table, SboxLayer(table, LowBits(input, bitWidth)));
  }

  /** The loop over whole nibbles, and the copy of the last bits with the rest of their nibble. */
  method Substitute(input: Vec, bitWidth: nat, table: Nib -> Nib, ghost y: BitVec) returns (out: Vec)
    requires |input| == NumBytes(bitWidth) && Substituted(table, LowBits(input, bitWidth), y)
    ensures |out| == |input| && LowBits(out, bitWidth) == y
    ensures Clean(input, bitWidth) ==> Clean(out, bitWidth)
  {
    ghost var x := LowBits(input, bitWidth);
    out := ZeroBytes(|input|);
    ZeroBytesClear(|input|);
    var nibbles := bitWidth / 4;
    for i := 0 to nibbles
      invariant |out| == |input|
      invariant forall p: nat :: Bit(out, p) == (p < 4 * i && y[p])
    {
      NibbleIsSlice(input, bitWidth, i);
      var sboxOut := SboxNibble(table, NibbleOf(input, i));
      assert sboxOut == Nibble(y, i);
      assert forall p | 4 * i <= p < 4 * i + 4 :: y[p] == sboxOut[p - 4 * i];
      out := OrNibble(out, i, sboxOut);
    }
    if bitWidth % 4 != 0 {
      ghost var before := out;
      out := CopyNibble(input, out, nibbles);
      forall p | 0 <= p < bitWidth ensures Bit(out, p) == y[p] {
        if p >= 4 * nibbles { assert y[p] == x[p] == Bit(input, p); }
      }
    }
  }

  /** Or nibble i of one vector into another. */
  method CopyNibble(input: Vec, v: Vec, i: nat) returns (out: Vec)
    requires |v| == |input| && i / 2 < |input|
    ensures |out| == |v|
    ensures forall p: nat :: Bit(out, p) == (Bit(v, p) || (4 * i <= p < 4 * i + 4 && Bit(input, p)))
  {
    var nibble := NibbleOf(input, i);
    forall p: nat | 4 * i <= p < 4 * i + 4 ensures Bit(input, p) == nibble[p - 4 * i] {
      NibbleBits(input, i, p - 4 * i);
    }
    out := OrNibble(v, i, nibble);
  }

  lemma NibbleIsSlice(input: Vec, bitWidth: nat, i: nat)
    requires |input| == NumBytes(bitWidth) && i < bitWidth / 4
    ensures i / 2 < |input| && NibbleOf(input, i) == Nibble(LowBits(input, bitWidth), i)
  {
    forall k | 0 <= k < 4 ensures NibbleOf(input, i)[k] == Nibble(LowBits(input, bitWidth), i)[k] {
      NibbleBits(input, i, k);
    }
  }

  /** scramble_flip_layer */
  method ScrambleFlipLayer(input: Vec, bitWidth: nat) returns (out: Vec)
    requires |input| == NumBytes(bitWidth)
    ensures Clean(out, bitWidth) && LowBits(out, bitWidth) == SubstPerm.Flip(LowBits(input, bitWidth))
  {
    out := ZeroBytes(|input|);
    ZeroBytesClear(|input|);
    for i := 0 to bitWidth
      invariant |out| == |input|
      invariant forall p: nat :: Bit(out, p) == (bitWidth - i <= p < bitWidth && Bit(input, bitWidth - 1 - p))
    {
      var bit := ReadVectorBit(input, i);
      out := OrVectorBit(out, bitWidth - i - 1, bit);
    }
  }

  function Permuted(invert: bool, x: BitVec): (y: BitVec)
    ensures |y| == |x|
  {
    if invert then SubstPerm.Ungroup(x) else SubstPerm.Group(x)
  }

  /** The bits of the output that the first n turns of the loop have set. */
  predicate Placed(invert: bool, half: nat, n: nat, p: nat) {
    if invert then p < 2 * n else p < n || half <= p < half + n
  }

  /** Where turn i of the loop takes two bits from and where it puts them. */
  lemma UngroupedPair(x: BitVec, i: nat)
    requires i < |x| / 2
    ensures SubstPerm.Ungroup(x)[2 * i] == x[i] && SubstPerm.Ungroup(x)[2 * i + 1] == x[i + |x| / 2]
  {
    var j := 2 * i;
    assert j / 2 == i && j % 2 == 0 && (j + 1) / 2 == i && (j + 1) % 2 == 1;
    assert SubstPerm.Ungroup(x)[j + 1] == x[(j + 1) / 2 + |x| / 2];
  }

  lemma GroupedPair(x: BitVec, i: nat)
    requires i < |x| / 2
    ensures SubstPerm.Group(x)[i] == x[2 * i] && SubstPerm.Group(x)[i + |x| / 2] == x[2 * i + 1]
  {
    var h := |x| / 2;
    var j := i + h;
    assert SubstPerm.Group(x)[j] == x[2 * (j - h) + 1];
  }

  /** Turn i sets the places of its two bits. */
  lemma PairPlaced(invert: bool, half: nat, i: nat, p: nat)
    requires i < half
    ensures Placed(invert, half, i + 1, p) <==>
              || Placed(invert, half, i, p)
              || (if invert then p == 2 * i || p == 2 * i + 1 else p == i || p == i + half)
  {
  }

  /** Or two bits of one vector into two places of another. */
  method MovePair(v: Vec, input: Vec, from0: nat, to0: nat, from1: nat, to1: nat) returns (out: Vec)
    requires |v| == |input|
    requires from0 < 8 * |v| && to0 < 8 * |v| && from1 < 8 * |v| && to1 < 8 * |v|
    ensures |out| == |v|
    ensures forall p: nat ::
              Bit(out, p) == (Bit(v, p) || (p == to0 && Bit(input, from0)) || (p == to1 && Bit(input, from1)))
  {
    var even := ReadVectorBit(input, from0);
    out := OrVectorBit(v, to0, even);
    var odd := ReadVectorBit(input, from1);
    out := OrVectorBit(out, to1, odd);
  }

  /** One turn of the loop: two bits to their places. */
  method PlacePair(v: Vec, input: Vec, bitWidth: nat, invert: bool, i: nat, ghost y: BitVec) returns (out: Vec)
    requires |v| == |input| == NumBytes(bitWidth) && i < bitWidth / 2
    requires y == Permuted(invert, LowBits(input, bitWidth))
    requires forall p: nat :: Bit(v, p) == (p < bitWidth && Placed(invert, bitWidth / 2, i, p) && y[p])
    ensures |out| == |input|
    ensures forall p: nat :: Bit(out, p) == (p < bitWidth && Placed(invert, bitWidth / 2, i + 1, p) && y[p])
  {
    var half := bitWidth / 2;
    ghost var x := LowBits(input, bitWidth);
    if invert {
      UngroupedPair(x, i);
      out := MovePair(v, input, i, i * 2, i + half, i * 2 + 1);
    } else {
      GroupedPair(x, i);
      out := MovePair(v, input, i * 2, i, i * 2 + 1, i + half);
    }
    forall p: nat ensures Bit(out, p) == (p < bitWidth && Placed(invert, half, i + 1, p) && y[p]) {
      PairPlaced(invert, half, i, p);
    }
  }

  /** scramble_perm_layer */
  method ScramblePermLayer(input: Vec, bitWidth: nat, invert: bool) returns (out: Vec)
    requires |input| == NumBytes(bitWidth)
    ensures Clean(out, bitWidth) && LowBits(out, bitWidth) == Permuted(invert, LowBits(input, bitWidth))
  {
    ghost var y := Permuted(invert, LowBits(input, bitWidth));
    out := ZeroBytes(|input|);
    ZeroBytesClear(|input|);
    var half := bitWidth / 2;
    for i := 0 to half
      invariant |out| == |input|
      invariant forall p: nat :: Bit(out, p) == (p < bitWidth && Placed(invert, half, i, p) && y[p])
    {
      out := PlacePair(out, input, bitWidth, invert, i, y);
    }
    if bitWidth % 2 == 1 {
      var last := ReadVectorBit(input, bitWidth - 1);
      out := OrVectorBit(out, bitWidth - 1, last);
    }
  }

  // ---------------------------------------------------------------- the network

  /** scramble_subst_perm_enc */
  method ScrambleSubstPermEnc(input: Vec, key: Vec, bitWidth: nat, numRounds: nat) returns (state: Vec)
    requires |input| == |key| == NumBytes(bitWidth)
    ensures |state| == |input|
    ensures LowBits(state, bitWidth) ==
            SubstPerm.Crypt(false, LowBits(input, bitWidth), LowBits(key, bitWidth), numRounds)
    ensures Clean(input, bitWidth) && Clean(key, bitWidth) ==> Clean(state, bitWidth)
  {
    ghost var x, k := LowBits(input, bitWidth), LowBits(key, bitWidth);
    state := input;
    for i := 0 to numRounds
      invariant |state| == |input|
      invariant LowBits(state, bitWidth) == SubstPerm.Rounds(SubstPerm.LayersOf(false), x, k, i)
      invariant Clean(input, bitWidth) && Clean(key, bitWidth) ==> Clean(state, bitWidth)
    {
      XorVectorsBits(state, key, bitWidth);
      state := XorVectors(state, key);
      state := ScrambleSboxLayer(state, bitWidth, PresentTable(false));
      state := ScrambleFlipLayer(state, bitWidth);
      state := ScramblePermLayer(state, bitWidth, false);
    }
    XorVectorsBits(state, key, bitWidth);
    state := XorVectors(state, key);
  }

  /** scramble_subst_perm_dec */
  method ScrambleSubstPermDec(input: Vec, key: Vec, bitWidth: nat, numRounds: nat) returns (state: Vec)
    requires |input| == |key| == NumBytes(bitWidth)
    ensures |state| == |input|
    ensures LowBits(state, bitWidth) ==
            SubstPerm.Crypt(true, LowBits(input, bitWidth), LowBits(key, bitWidth), numRounds)
    ensures Clean(input, bitWidth) && Clean(key, bitWidth) ==> Clean(state, bitWidth)
  {
    ghost var x, k := LowBits(input, bitWidth), LowBits(key, bitWidth);
    state := input;
    for i := 0 to numRounds
      invariant |state| == |input|
      invariant LowBits(state, bitWidth) == SubstPerm.Rounds(SubstPerm.LayersOf(true), x, k, i)
      invariant Clean(input, bitWidth) && Clean(key, bitWidth) ==> Clean(state, bitWidth)
    {
      XorVectorsBits(state, key, bitWidth);
      state := XorVectors(state, key);
      state := ScramblePermLayer(state, bitWidth, true);
      state := ScrambleFlipLayer(state, bitWidth);
      state := ScrambleSboxLayer(state, bitWidth, PresentTable(true));
    }
    XorVectorsBits(state, key, bitWidth);
    state := XorVectors(state, key);
  }
}
