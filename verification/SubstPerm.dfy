/** The substitution/permutation network of prim_subst_perm.sv and scramble_model.cc at any width:
    its layers, its rounds, and the proof that decryption and encryption are inverse bijections. */
module SubstPerm {
  import opened Bits
  import Sbox

  /** Reverse the vector. */
  function Flip(x: BitVec): (r: BitVec)
    ensures |r| == |x|
  {
    seq(|x|, i requires 0 <= i < |x| => x[|x| - 1 - i])
  }

  /** Even bits to the lower half, odd bits to the upper half; an odd last bit stays. */
  function Group(x: BitVec): (r: BitVec)
    ensures |r| == |x|
  {
    var h := |x| / 2;
    seq(|x|, i requires 0 <= i < |x| =>
      if i < h then x[2 * i] else if i < 2 * h then x[2 * (i - h) + 1] else x[i])
  }

  /** The inverse of Group. */
  function Ungroup(x: BitVec): (r: BitVec)
    ensures |r| == |x|
  {
    var h := |x| / 2;
    seq(|x|, i requires 0 <= i < |x| =>
      if i >= 2 * h then x[i] else if i % 2 == 0 then x[i / 2] else x[i / 2 + h])
  }

  lemma FlipTwice(x: BitVec)
    ensures Flip(Flip(x)) == x
  {
  }

  lemma GroupUngroup(x: BitVec)
    ensures Ungroup(Group(x)) == x && Group(Ungroup(x)) == x
  {
    forall i | 0 <= i < |x| ensures Ungroup(Group(x))[i] == x[i] {
      UngroupGroupAt(x, i);
    }
    forall i | 0 <= i < |x| ensures Group(Ungroup(x))[i] == x[i] {
      GroupUngroupAt(x, i);
    }
  }

  lemma UngroupGroupAt(x: BitVec, i: nat)
    requires i < |x|
    ensures Ungroup(Group(x))[i] == x[i]
  {
    var h := |x| / 2;
    if i < 2 * h && i % 2 == 1 {
      assert Group(x)[i / 2 + h] == x[2 * (i / 2) + 1];
    }
  }

  lemma GroupUngroupAt(x: BitVec, i: nat)
    requires i < |x|
    ensures Group(Ungroup(x))[i] == x[i]
  {
    var h := |x| / 2;
    if i < h {
      assert Ungroup(x)[2 * i] == x[i];
    } else if i < 2 * h {
      assert Ungroup(x)[2 * (i - h) + 1] == x[i];
    }
  }

  /** The layers of one round of encryption or decryption, after the key has been added. */
  function Layers(dec: bool, x: BitVec): (r: BitVec)
    ensures |r| == |x|
  {
    if dec then Sbox.SboxLayer(Sbox.PresentTable(true), Flip(Ungroup(x)))
    else Group(Flip(Sbox.SboxLayer(Sbox.PresentTable(false), x)))
  }

  lemma LayersInverse(dec: bool, x: BitVec)
    ensures Layers(!dec, Layers(dec, x)) == x
  {
    var table, back := Sbox.PresentTable(dec), Sbox.PresentTable(!dec);
    forall n: Sbox.Nib ensures back(table(n)) == n { Sbox.PresentTablesInverse(dec, n); }
    if dec {
      Sbox.SboxLayersInverse(table, back, Flip(Ungroup(x)));
      FlipTwice(Ungroup(x));
      GroupUngroup(x);
    } else {
      var y := Sbox.SboxLayer(table, x);
      GroupUngroup(Flip(y));
      FlipTwice(y);
      Sbox.SboxLayersInverse(table, back, x);
    }
  }

  /** The state after n rounds of the layers f, each after a key addition. */
  function Rounds(f: BitVec -> BitVec, x: BitVec, key: BitVec, n: nat): BitVec {
    if n == 0 then x else f(Xor(Rounds(f, x, key, n - 1), key))
  }

  /** k rounds of g undo the last k rounds of f when each layer g undoes f. */
  lemma {:induction false} RoundsUnwind(f: BitVec -> BitVec, g: BitVec -> BitVec,
                                        x: BitVec, key: BitVec, n: nat, k: nat)
    requires k <= n
    requires forall z :: g(f(z)) == z
    ensures Rounds(g, Xor(Rounds(f, x, key, n), key), key, k) == Xor(Rounds(f, x, key, n - k), key)
  {
    if k > 0 {
      RoundsUnwind(f, g, x, key, n, k - 1);
      XorTwice(Rounds(f, x, key, n - k + 1), key);
    }
  }

  function LayersOf(dec: bool): BitVec -> BitVec {
    x => Layers(dec, x)
  }

  /** The whole network: the rounds and a final key addition. */
  function Crypt(dec: bool, x: BitVec, key: BitVec, n: nat): (r: BitVec)
    ensures |r| == |x|
  {
    RoundsLength(dec, x, key, n);
    Xor(Rounds(LayersOf(dec), x, key, n), key)
  }

  lemma {:induction false} RoundsLength(dec: bool, x: BitVec, key: BitVec, n: nat)
    ensures |Rounds(LayersOf(dec), x, key, n)| == |x|
  {
    if n > 0 { RoundsLength(dec, x, key, n - 1); }
  }

  /** For every width, key and number of rounds, each direction undoes the other. */
  lemma CryptInverse(dec: bool, x: BitVec, key: BitVec, n: nat)
    ensures Crypt(!dec, Crypt(dec, x, key, n), key, n) == x
  {
    forall z ensures LayersOf(!dec)(LayersOf(dec)(z)) == z { LayersInverse(dec, z); }
    RoundsUnwind(LayersOf(dec), LayersOf(!dec), x, key, n, n);
    XorTwice(x, key);
  }

  /** Both directions are bijections on vectors of any one width. */
  lemma CryptBijective(dec: bool, x: BitVec, y: BitVec, key: BitVec, n: nat)
    requires |x| == |y|
    ensures Crypt(dec, x, key, n) == Crypt(dec, y, key, n) ==> x == y
    ensures exists z: BitVec | |z| == |y| :: Crypt(dec, z, key, n) == y
  {
    CryptInverse(dec, x, key, n);
    CryptInverse(dec, y, key, n);
    CryptInverse(!dec, y, key, n);
    assert Crypt(dec, Crypt(!dec, y, key, n), key, n) == y;
  }

  // ---------------------------------------------------------------- narrow vectors

  /** Up to three bits there is no whole nibble and nothing to group. */
  lemma NarrowLayers(x: BitVec)
    requires 1 <= |x| <= 3
    ensures Layers(false, x) == Flip(x)
  {
    assert Sbox.SboxLayer(Sbox.PresentTable(false), x) == x;
    assert Group(Flip(x)) == Flip(x);
  }

  lemma TwoRounds(f: BitVec -> BitVec, x: BitVec, key: BitVec)
    ensures Rounds(f, x, key, 2) == f(Xor(f(Xor(x, key)), key))
  {
    assert Rounds(f, x, key, 1) == f(Xor(Rounds(f, x, key, 0), key));
  }

  lemma ReversedKeyLeft(x: BitVec, key: BitVec)
    requires |x| == |key|
    ensures Xor(Flip(Xor(Flip(Xor(x, key)), key)), key) == Xor(x, Flip(key))
  {
    var s := Flip(Xor(x, key));
    var t := Flip(Xor(s, key));
    forall i | 0 <= i < |x| ensures Xor(t, key)[i] == (x[i] != Flip(key)[i]) {
      assert t[i] == (s[|x| - 1 - i] != key[|x| - 1 - i]);
    }
  }

  /** Two rounds on up to three bits only add the reversed key. */
  lemma NarrowCrypt(x: BitVec, key: BitVec)
    requires 1 <= |x| == |key| <= 3
    ensures Crypt(false, x, key, 2) == Xor(x, Flip(key))
  {
    var s := Flip(Xor(x, key));
    NarrowLayers(Xor(x, key));
    NarrowLayers(Xor(s, key));
    TwoRounds(LayersOf(false), x, key);
    ReversedKeyLeft(x, key);
  }
}
