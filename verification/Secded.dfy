/** The SECDED codes of secded_enc.c and its decoders: 39/32, and 22/16 with inverted check bits. */
module Secded {
  import opened Bits
  import opened LinearCodes

  // ---------------------------------------------------------------- tables

  /** Bit i of a constant. */
  predicate ConstBit(v: bv64, i: nat)
    requires i < 64
  {
    (v >> i) & 1 == 1
  }

  function ConstBits(v: bv64, n: nat): (r: BitVec)
    requires n <= 64
    ensures |r| == n
  {
    seq(n, i requires 0 <= i < n => ConstBit(v, i))
  }

  /** The data masks of enc_secded_39_32. */
  function EncMask39(k: nat): bv64 {
    match k
    case 0 => 0x2606bd25 case 1 => 0xdeba8050 case 2 => 0x413d89aa case 3 => 0x31234ed1 case 4 => 0xc2c1323b
    case 5 => 0x2dcc624c case _ => 0x98505586
  }

  /** The syndrome masks of the 39/32 decoder. */
  function DecMask39(k: nat): bv64 {
    match k
    case 0 => 0x012606bd25 case 1 => 0x02deba8050 case 2 => 0x04413d89aa case 3 => 0x0831234ed1
    case 4 => 0x10c2c1323b case 5 => 0x202dcc624c case _ => 0x4098505586
  }

  /** The syndromes at which the decoder corrects bit i, and those of the check bits. */
  function Column39(i: nat): bv64 {
    match i
    case 0 => 0x19 case 1 => 0x54 case 2 => 0x61 case 3 => 0x34 case 4 => 0x1a case 5 => 0x15 case 6 => 0x2a
    case 7 => 0x4c case 8 => 0x45 case 9 => 0x38 case 10 => 0x49 case 11 => 0xd case 12 => 0x51 case 13 => 0x31
    case 14 => 0x68 case 15 => 0x7 case 16 => 0x1c case 17 => 0xb case 18 => 0x25 case 19 => 0x26
    case 20 => 0x46 case 21 => 0xe case 22 => 0x70 case 23 => 0x32 case 24 => 0x2c case 25 => 0x13
    case 26 => 0x23 case 27 => 0x62 case 28 => 0x4a case 29 => 0x29 case 30 => 0x16 case 31 => 0x52
    case 32 => 0x1 case 33 => 0x2 case 34 => 0x4 case 35 => 0x8 case 36 => 0x10 case 37 => 0x20 case _ => 0x40
  }

  /** The bit that has a syndrome. */
  function Locate39(c: bv64): nat {
    if c == 0x19 then 0 else if c == 0x54 then 1 else if c == 0x61 then 2 else if c == 0x34 then 3
    else if c == 0x1a then 4 else if c == 0x15 then 5 else if c == 0x2a then 6 else if c == 0x4c then 7
    else if c == 0x45 then 8 else if c == 0x38 then 9 else if c == 0x49 then 10 else if c == 0xd then 11
    else if c == 0x51 then 12 else if c == 0x31 then 13 else if c == 0x68 then 14 else if c == 0x7 then 15
    else if c == 0x1c then 16 else if c == 0xb then 17 else if c == 0x25 then 18 else if c == 0x26 then 19
    else if c == 0x46 then 20 else if c == 0xe then 21 else if c == 0x70 then 22 else if c == 0x32 then 23
    else if c == 0x2c then 24 else if c == 0x13 then 25 else if c == 0x23 then 26 else if c == 0x62 then 27
    else if c == 0x4a then 28 else if c == 0x29 then 29 else if c == 0x16 then 30 else if c == 0x52 then 31
    else if c == 0x1 then 32 else if c == 0x2 then 33 else if c == 0x4 then 34 else if c == 0x8 then 35
    else if c == 0x10 then 36 else if c == 0x20 then 37 else if c == 0x40 then 38 else 39
  }

  /** The data masks of enc_secded_22_16. */
  function EncMask22(k: nat): bv64 {
    match k
    case 0 => 0x496e case 1 => 0xf20b case 2 => 0x8ed8 case 3 => 0x7714 case 4 => 0xaca5 case _ => 0x11f3
  }

  /** The syndrome masks of the 22/16 decoder. */
  function DecMask22(k: nat): bv64 {
    match k
    case 0 => 0x01496e case 1 => 0x02f20b case 2 => 0x048ed8 case 3 => 0x087714 case 4 => 0x10aca5
    case _ => 0x2011f3
  }

  /** The syndromes at which the decoder corrects bit i, and those of the check bits. */
  function Column22(i: nat): bv64 {
    match i
    case 0 => 0x32 case 1 => 0x23 case 2 => 0x19 case 3 => 0x7 case 4 => 0x2c case 5 => 0x31 case 6 => 0x25
    case 7 => 0x34 case 8 => 0x29 case 9 => 0xe case 10 => 0x1c case 11 => 0x15 case 12 => 0x2a case 13 => 0x1a
    case 14 => 0xb case 15 => 0x16 case 16 => 0x1 case 17 => 0x2 case 18 => 0x4 case 19 => 0x8 case 20 => 0x10
    case _ => 0x20
  }

  /** The bit that has a syndrome. */
  function Locate22(c: bv64): nat {
    if c == 0x32 then 0 else if c == 0x23 then 1 else if c == 0x19 then 2 else if c == 0x7 then 3
    else if c == 0x2c then 4 else if c == 0x31 then 5 else if c == 0x25 then 6 else if c == 0x34 then 7
    else if c == 0x29 then 8 else if c == 0xe then 9 else if c == 0x1c then 10 else if c == 0x15 then 11
    else if c == 0x2a then 12 else if c == 0x1a then 13 else if c == 0xb then 14 else if c == 0x16 then 15
    else if c == 0x1 then 16 else if c == 0x2 then 17 else if c == 0x4 then 18 else if c == 0x8 then 19
    else if c == 0x10 then 20 else if c == 0x20 then 21 else 22
  }

  /** The parity-check matrices. */
  function H39(): Matrix {
    (k: nat, i: nat) => k < 7 && i < 39 && ConstBit(DecMask39(k), i)
  }

  function H22(): Matrix {
    (k: nat, i: nat) => k < 6 && i < 22 && ConstBit(DecMask22(k), i)
  }

  // ---------------------------------------------------------------- what the tables say

  /** Row k of the matrix agrees with the columns and, on the data, with the encoder's mask. */
  lemma Row39(k: nat, i: nat)
    requires k < 7 && i < 39
    ensures ConstBit(DecMask39(k), i) == ConstBit(Column39(i), k)
  {
    match i
    case 0 => case 1 => case 2 => case 3 => case 4 => case 5 => case 6 => case 7 => case 8 => case 9 =>
    case 10 => case 11 => case 12 => case 13 => case 14 => case 15 => case 16 => case 17 => case 18 =>
    case 19 => case 20 => case 21 => case 22 => case 23 => case 24 => case 25 => case 26 => case 27 =>
    case 28 => case 29 => case 30 => case 31 => case 32 => case 33 => case 34 => case 35 => case 36 =>
    case 37 => case _ =>
  }

  lemma DataRow39(k: nat, i: nat)
    requires k < 7 && i < 32
    ensures ConstBit(EncMask39(k), i) == ConstBit(Column39(i), k)
  {
    match i
    case 0 => case 1 => case 2 => case 3 => case 4 => case 5 => case 6 => case 7 => case 8 => case 9 =>
    case 10 => case 11 => case 12 => case 13 => case 14 => case 15 => case 16 => case 17 => case 18 =>
    case 19 => case 20 => case 21 => case 22 => case 23 => case 24 => case 25 => case 26 => case 27 =>
    case 28 => case 29 => case 30 => case _ =>
  }

  lemma CheckRow39(k: nat, j: nat)
    requires k < 7 && j < 7
    ensures ConstBit(Column39(32 + j), k) == (j == k)
  {
    match j
    case 0 => case 1 => case 2 => case 3 => case 4 => case 5 => case _ =>
  }

  lemma Odd39(i: nat)
    requires i < 39
    ensures Parity(ConstBits(Column39(i), 7))
  {
    var c := Column39(i);
    ParityOf7(ConstBits(c, 7));
    OddWeight39(i);
  }

  lemma OddWeight39(i: nat)
    requires i < 39
    ensures var c := Column39(i);
            (((((ConstBit(c, 0) != ConstBit(c, 1)) != ConstBit(c, 2)) != ConstBit(c, 3)) != ConstBit(c, 4))
             != ConstBit(c, 5)) != ConstBit(c, 6)
  {
    match i
    case 0 => case 1 => case 2 => case 3 => case 4 => case 5 => case 6 => case 7 => case 8 => case 9 =>
    case 10 => case 11 => case 12 => case 13 => case 14 => case 15 => case 16 => case 17 => case 18 =>
    case 19 => case 20 => case 21 => case 22 => case 23 => case 24 => case 25 => case 26 => case 27 =>
    case 28 => case 29 => case 30 => case 31 => case 32 => case 33 => case 34 => case 35 => case 36 =>
    case 37 => case _ =>
  }

  lemma ParityOf7(x: BitVec)
    requires |x| == 7
    ensures Parity(x) == ((((((x[0] != x[1]) != x[2]) != x[3]) != x[4]) != x[5]) != x[6])
  {
    assert Parity(x[0..]) == (x[0] != Parity(x[1..])) by { assert x[0..][1..] == x[1..]; }
    assert Parity(x[1..]) == (x[1] != Parity(x[2..])) by { assert x[1..][1..] == x[2..]; }
    assert Parity(x[2..]) == (x[2] != Parity(x[3..])) by { assert x[2..][1..] == x[3..]; }
    assert Parity(x[3..]) == (x[3] != Parity(x[4..])) by { assert x[3..][1..] == x[4..]; }
    assert Parity(x[4..]) == (x[4] != Parity(x[5..])) by { assert x[4..][1..] == x[5..]; }
    assert Parity(x[5..]) == (x[5] != Parity(x[6..])) by { assert x[5..][1..] == x[6..]; }
    assert Parity(x[6..]) == (x[6] != Parity(x[7..])) by { assert x[6..][1..] == x[7..]; }
  }

  lemma Located39(i: nat)
    requires i < 39
    ensures Locate39(Column39(i)) == i && Column39(i) < 128
  {
    match i
    case 0 => case 1 => case 2 => case 3 => case 4 => case 5 => case 6 => case 7 => case 8 => case 9 =>
    case 10 => case 11 => case 12 => case 13 => case 14 => case 15 => case 16 => case 17 => case 18 =>
    case 19 => case 20 => case 21 => case 22 => case 23 => case 24 => case 25 => case 26 => case 27 =>
    case 28 => case 29 => case 30 => case 31 => case 32 => case 33 => case 34 => case 35 => case 36 =>
    case 37 => case _ =>
  }

  lemma ColumnOf39(i: nat)
    requires i < 39
    ensures Column(H39(), 7, i) == ConstBits(Column39(i), 7)
  {
    forall k | 0 <= k < 7 ensures Column(H39(), 7, i)[k] == ConstBits(Column39(i), 7)[k] {
      Row39(k, i);
    }
  }

  /** Constants below 2^7 with the same bits are equal. */
  lemma BitsDetermine7(a: bv64, b: bv64)
    requires a < 128 && b < 128 && ConstBits(a, 7) == ConstBits(b, 7)
    ensures a == b
  {
    var x, y := ConstBits(a, 7), ConstBits(b, 7);
    assert x[0] == y[0] && x[1] == y[1] && x[2] == y[2] && x[3] == y[3] && x[4] == y[4] && x[5] == y[5] && x[6] == y[6];
    SameBits7(a, b);
  }

  lemma SameBits7(a: bv64, b: bv64)
    requires a < 128 && b < 128
    requires ConstBit(a, 0) == ConstBit(b, 0) && ConstBit(a, 1) == ConstBit(b, 1) && ConstBit(a, 2) == ConstBit(b, 2)
    requires ConstBit(a, 3) == ConstBit(b, 3) && ConstBit(a, 4) == ConstBit(b, 4) && ConstBit(a, 5) == ConstBit(b, 5)
    requires ConstBit(a, 6) == ConstBit(b, 6)
    ensures a == b
  {
  }

  /** The matrix is that of a code that corrects one error and detects two. */
  lemma Good39()
    ensures CorrectsOne(H39(), 7, 39) && Systematic(H39(), 7, 32)
  {
    forall i | 0 <= i < 39 ensures Parity(Column(H39(), 7, i)) {
      ColumnOf39(i);
      Odd39(i);
    }
    forall i, j | 0 <= i < j < 39 ensures Column(H39(), 7, i) != Column(H39(), 7, j) {
      if Column(H39(), 7, i) == Column(H39(), 7, j) {
        Distinct39(i, j);
        assert false;
      }
    }
    forall k: nat, j: nat | k < 7 && 32 <= j ensures H39()(k, j) == (j == 32 + k) {
      if j < 39 {
        Row39(k, j);
        CheckRow39(k, j - 32);
      }
    }
  }

  lemma Distinct39(i: nat, j: nat)
    requires i < 39 && j < 39 && Column(H39(), 7, i) == Column(H39(), 7, j)
    ensures i == j
  {
    ColumnOf39(i);
    ColumnOf39(j);
    Located39(i);
    Located39(j);
    BitsDetermine7(Column39(i), Column39(j));
  }

  /** Row k of the matrix agrees with the columns and, on the data, with the encoder's mask. */
  lemma Row22(k: nat, i: nat)
    requires k < 6 && i < 22
    ensures ConstBit(DecMask22(k), i) == ConstBit(Column22(i), k)
  {
    match i
    case 0 => case 1 => case 2 => case 3 => case 4 => case 5 => case 6 => case 7 => case 8 => case 9 =>
    case 10 => case 11 => case 12 => case 13 => case 14 => case 15 => case 16 => case 17 => case 18 =>
    case 19 => case 20 => case _ =>
  }

  lemma DataRow22(k: nat, i: nat)
    requires k < 6 && i < 16
    ensures ConstBit(EncMask22(k), i) == ConstBit(Column22(i), k)
  {
    match i
    case 0 => case 1 => case 2 => case 3 => case 4 => case 5 => case 6 => case 7 => case 8 => case 9 =>
    case 10 => case 11 => case 12 => case 13 => case 14 => case _ =>
  }

  lemma CheckRow22(k: nat, j: nat)
    requires k < 6 && j < 6
    ensures ConstBit(Column22(16 + j), k) == (j == k)
  {
    match j
    case 0 => case 1 => case 2 => case 3 => case 4 => case _ =>
  }

  lemma Odd22(i: nat)
    requires i < 22
    ensures Parity(ConstBits(Column22(i), 6))
  {
    var c := Column22(i);
    ParityOf6(ConstBits(c, 6));
    OddWeight22(i);
  }

  lemma OddWeight22(i: nat)
    requires i < 22
    ensures var c := Column22(i);
            ((((ConstBit(c, 0) != ConstBit(c, 1)) != ConstBit(c, 2)) != ConstBit(c, 3)) != ConstBit(c, 4))
            != ConstBit(c, 5)
  {
    match i
    case 0 => case 1 => case 2 => case 3 => case 4 => case 5 => case 6 => case 7 => case 8 => case 9 =>
    case 10 => case 11 => case 12 => case 13 => case 14 => case 15 => case 16 => case 17 => case 18 =>
    case 19 => case 20 => case _ =>
  }

  lemma ParityOf6(x: BitVec)
    requires |x| == 6
    ensures Parity(x) == (((((x[0] != x[1]) != x[2]) != x[3]) != x[4]) != x[5])
  {
    assert Parity(x[0..]) == (x[0] != Parity(x[1..])) by { assert x[0..][1..] == x[1..]; }
    assert Parity(x[1..]) == (x[1] != Parity(x[2..])) by { assert x[1..][1..] == x[2..]; }
    assert Parity(x[2..]) == (x[2] != Parity(x[3..])) by { assert x[2..][1..] == x[3..]; }
    assert Parity(x[3..]) == (x[3] != Parity(x[4..])) by { assert x[3..][1..] == x[4..]; }
    assert Parity(x[4..]) == (x[4] != Parity(x[5..])) by { assert x[4..][1..] == x[5..]; }
    assert Parity(x[5..]) == (x[5] != Parity(x[6..])) by { assert x[5..][1..] == x[6..]; }
  }

  lemma Located22(i: nat)
    requires i < 22
    ensures Locate22(Column22(i)) == i && Column22(i) < 64
  {
    match i
    case 0 => case 1 => case 2 => case 3 => case 4 => case 5 => case 6 => case 7 => case 8 => case 9 =>
    case 10 => case 11 => case 12 => case 13 => case 14 => case 15 => case 16 => case 17 => case 18 =>
    case 19 => case 20 => case _ =>
  }

  lemma ColumnOf22(i: nat)
    requires i < 22
    ensures Column(H22(), 6, i) == ConstBits(Column22(i), 6)
  {
    forall k | 0 <= k < 6 ensures Column(H22(), 6, i)[k] == ConstBits(Column22(i), 6)[k] {
      Row22(k, i);
    }
  }

  /** Constants below 2^6 with the same bits are equal. */
  lemma BitsDetermine6(a: bv64, b: bv64)
    requires a < 64 && b < 64 && ConstBits(a, 6) == ConstBits(b, 6)
    ensures a == b
  {
    var x, y := ConstBits(a, 6), ConstBits(b, 6);
    assert x[0] == y[0] && x[1] == y[1] && x[2] == y[2] && x[3] == y[3] && x[4] == y[4] && x[5] == y[5];
    SameBits6(a, b);
  }

  lemma SameBits6(a: bv64, b: bv64)
    requires a < 64 && b < 64
    requires ConstBit(a, 0) == ConstBit(b, 0) && ConstBit(a, 1) == ConstBit(b, 1) && ConstBit(a, 2) == ConstBit(b, 2)
    requires ConstBit(a, 3) == ConstBit(b, 3) && ConstBit(a, 4) == ConstBit(b, 4) && ConstBit(a, 5) == ConstBit(b, 5)
    ensures a == b
  {
  }

  /** The matrix is that of a code that corrects one error and detects two. */
  lemma Good22()
    ensures CorrectsOne(H22(), 6, 22) && Systematic(H22(), 6, 16)
  {
    forall i | 0 <= i < 22 ensures Parity(Column(H22(), 6, i)) {
      ColumnOf22(i);
      Odd22(i);
    }
    forall i, j | 0 <= i < j < 22 ensures Column(H22(), 6, i) != Column(H22(), 6, j) {
      if Column(H22(), 6, i) == Column(H22(), 6, j) {
        Distinct22(i, j);
        assert false;
      }
    }
    forall k: nat, j: nat | k < 6 && 16 <= j ensures H22()(k, j) == (j == 16 + k) {
      if j < 22 {
        Row22(k, j);
        CheckRow22(k, j - 16);
      }
    }
  }

  lemma Distinct22(i: nat, j: nat)
    requires i < 22 && j < 22 && Column(H22(), 6, i) == Column(H22(), 6, j)
    ensures i == j
  {
    ColumnOf22(i);
    ColumnOf22(j);
    Located22(i);
    Located22(j);
    BitsDetermine6(Column22(i), Column22(j));
  }

  // ---------------------------------------------------------------- encoders and decoders

  /** Which check bits the inverted codes complement: those of odd index. */
  function Inversion(rows: nat, invert: bool): (v: BitVec)
    ensures |v| == rows
  {
    seq(rows, k requires 0 <= k < rows => invert && k % 2 == 1)
  }

  /** The check bits of enc_secded_39_32 and enc_secded_inv_39_32. */
  function Check39(word: BitVec, invert: bool): (c: BitVec)
    ensures |c| == 7
  {
    Xor(CheckBits(H39(), 7, word), Inversion(7, invert))
  }

  /** The check bits of enc_secded_inv_22_16. */
  function Check22(word: BitVec): (c: BitVec)
    ensures |c| == 6
  {
    Xor(CheckBits(H22(), 6, word), Inversion(6, true))
  }

  lemma EncoderRow39(word: BitVec, k: nat)
    requires |word| == 32 && k < 7
    ensures Masked(word, ConstBits(EncMask39(k), 32)) == Masked(word, Row(H39(), k, 32))
  {
    forall i | 0 <= i < 32 ensures ConstBits(EncMask39(k), 32)[i] == Row(H39(), k, 32)[i] {
      DataRow39(k, i);
      Row39(k, i);
    }
  }

  lemma EncoderRow22(word: BitVec, k: nat)
    requires |word| == 16 && k < 6
    ensures Masked(word, ConstBits(EncMask22(k), 16)) == Masked(word, Row(H22(), k, 16))
  {
    forall i | 0 <= i < 16 ensures ConstBits(EncMask22(k), 16)[i] == Row(H22(), k, 16)[i] {
      DataRow22(k, i);
      Row22(k, i);
    }
  }

  /** One parity of the encoder. */
  method CheckBit39(word: BitVec, k: nat, invert: bool) returns (p: bool)
    requires |word| == 32 && k < 7
    ensures p == (CheckBits(H39(), 7, word)[k] != invert)
  {
    EncoderRow39(word, k);
    p := CalcParity(Masked(word, ConstBits(EncMask39(k), 32)), invert);
  }

  /** enc_secded_39_32 and enc_secded_inv_39_32: the parities of the masked word. */
  method EncSecded39(word: BitVec, invert: bool) returns (check: BitVec)
    requires |word| == 32
    ensures check == Check39(word, invert)
  {
    ghost var plain := CheckBits(H39(), 7, word);
    var p0 := CheckBit39(word, 0, false);
    var p1 := CheckBit39(word, 1, invert);
    var p2 := CheckBit39(word, 2, false);
    var p3 := CheckBit39(word, 3, invert);
    var p4 := CheckBit39(word, 4, false);
    var p5 := CheckBit39(word, 5, invert);
    var p6 := CheckBit39(word, 6, false);
    check := [p0, p1, p2, p3, p4, p5, p6];
    OddInverted(plain, check, invert);
  }

  lemma OddInverted(plain: BitVec, check: BitVec, invert: bool)
    requires |plain| == |check| == 7
    requires check[0] == plain[0] && check[1] == (plain[1] != invert) && check[2] == plain[2]
    requires check[3] == (plain[3] != invert) && check[4] == plain[4]
    requires check[5] == (plain[5] != invert) && check[6] == plain[6]
    ensures check == Xor(plain, Inversion(7, invert))
  {
  }

  /** enc_secded_inv_22_16 */
  method EncSecdedInv22(word: BitVec) returns (check: BitVec)
    requires |word| == 16
    ensures check == Check22(word)
  {
    forall k: nat | k < 6 ensures Masked(word, ConstBits(EncMask22(k), 16)) == Masked(word, Row(H22(), k, 16)) {
      EncoderRow22(word, k);
    }
    var p0 := CalcParity(Masked(word, ConstBits(EncMask22(0), 16)), false);
    var p1 := CalcParity(Masked(word, ConstBits(EncMask22(1), 16)), true);
    var p2 := CalcParity(Masked(word, ConstBits(EncMask22(2), 16)), false);
    var p3 := CalcParity(Masked(word, ConstBits(EncMask22(3), 16)), true);
    var p4 := CalcParity(Masked(word, ConstBits(EncMask22(4), 16)), false);
    var p5 := CalcParity(Masked(word, ConstBits(EncMask22(5), 16)), true);
    check := [p0, p1, p2, p3, p4, p5];
  }

  /** A decoder: the syndrome by masks, correction where it equals a constant, and the error bits. */
  function DecodeBy(mask: nat -> bv64, column: nat -> bv64, rows: nat, dataWidth: nat,
                    x: BitVec, inversion: BitVec): Decoded
    requires |x| <= 64 && rows <= 64 && dataWidth <= |x|
  {
    var s := seq(rows, k requires 0 <= k < rows => Parity(Masked(Xor(x, inversion), ConstBits(mask(k), |x|))));
    var single := Parity(s);
    Decoded(seq(dataWidth, i requires 0 <= i < dataWidth => (s == ConstBits(column(i), rows)) != x[i]),
            single, !single && s != Zeros(rows))
  }

  /** prim_secded_39_32_dec */
  function Dec39(x: BitVec): Decoded
    requires |x| == 39
  {
    DecodeBy(DecMask39, Column39, 7, 32, x, Zeros(39))
  }

  /** prim_secded_inv_22_16_dec; the constant 22'h2A0000 inverts check bits 1, 3 and 5. */
  function DecInv22(x: BitVec): Decoded
    requires |x| == 22
  {
    DecodeBy(DecMask22, Column22, 6, 16, x, ConstBits(0x2a0000, 22))
  }

  /** A decoder with the rows and columns of a matrix is the matrix's decoder. */
  lemma DecodeByMatrix(h: Matrix, mask: nat -> bv64, column: nat -> bv64, rows: nat, dataWidth: nat,
                       x: BitVec, inversion: BitVec)
    requires |inversion| == |x| <= 64 && rows <= 64 && dataWidth <= |x|
    requires forall k | 0 <= k < rows :: ConstBits(mask(k), |x|) == Row(h, k, |x|)
    requires forall i | 0 <= i < dataWidth :: ConstBits(column(i), rows) == Column(h, rows, i)
    requires forall i | 0 <= i < dataWidth :: !inversion[i]
    ensures DecodeBy(mask, column, rows, dataWidth, x, inversion) == Decode(h, rows, dataWidth, Xor(x, inversion))
  {
    var s := seq(rows, k requires 0 <= k < rows => Parity(Masked(Xor(x, inversion), ConstBits(mask(k), |x|))));
    assert s == Syndrome(h, rows, Xor(x, inversion));
    assert DecodeBy(mask, column, rows, dataWidth, x, inversion).data ==
           Decode(h, rows, dataWidth, Xor(x, inversion)).data;
  }

  /** The 39/32 decoder is the decoder of its matrix. */
  lemma Dec39IsDecode(x: BitVec)
    requires |x| == 39
    ensures Dec39(x) == Decode(H39(), 7, 32, x)
  {
    forall i | 0 <= i < 32 ensures ConstBits(Column39(i), 7) == Column(H39(), 7, i) { ColumnOf39(i); }
    forall k | 0 <= k < 7 ensures ConstBits(DecMask39(k), 39) == Row(H39(), k, 39) { }
    DecodeByMatrix(H39(), DecMask39, Column39, 7, 32, x, Zeros(39));
    assert Xor(x, Zeros(39)) == x;
  }

  /** The inverted 22/16 decoder is the decoder of its matrix on the word with its check bits restored. */
  lemma Dec22IsDecode(x: BitVec)
    requires |x| == 22
    ensures DecInv22(x) == Decode(H22(), 6, 16, Xor(x, Zeros(16) + Inversion(6, true)))
  {
    forall i | 0 <= i < 16 ensures ConstBits(Column22(i), 6) == Column(H22(), 6, i) { ColumnOf22(i); }
    forall k | 0 <= k < 6 ensures ConstBits(DecMask22(k), 22) == Row(H22(), k, 22) { }
    InversionMask();
    DecodeByMatrix(H22(), DecMask22, Column22, 6, 16, x, ConstBits(0x2a0000, 22));
  }

  lemma InversionMask()
    ensures ConstBits(0x2a0000, 22) == Zeros(16) + Inversion(6, true)
  {
    forall i | 0 <= i < 22 ensures ConstBits(0x2a0000, 22)[i] == (Zeros(16) + Inversion(6, true))[i] {
      InversionBit(i);
    }
  }

  lemma InversionBit(i: nat)
    requires i < 22
    ensures ConstBit(0x2a0000, i) == (i == 17 || i == 19 || i == 21)
  {
    match i
    case 0 => case 1 => case 2 => case 3 => case 4 => case 5 => case 6 => case 7 => case 8 => case 9 =>
    case 10 => case 11 => case 12 => case 13 => case 14 => case 15 => case 16 => case 17 => case 18 =>
    case 19 => case 20 => case _ =>
  }

  // ---------------------------------------------------------------- what the codes promise

  /** 39/32: a word decodes without error exactly when its check bits are the encoder's, and then
      to its data. */
  lemma Secded39Clean(data: BitVec, check: BitVec)
    requires |data| == 32 && |check| == 7
    ensures var d := Dec39(data + check);
            && (!d.single && !d.double <==> check == Check39(data, false))
            && (!d.single && !d.double ==> d.data == data)
  {
    Good39();
    Dec39IsDecode(data + check);
    CleanDecodes(H39(), 7, data, check);
    assert Check39(data, false) == CheckBits(H39(), 7, data);
  }

  /** Every single flipped bit is corrected and reported as single. */
  lemma Secded39Single(data: BitVec, i: nat)
    requires |data| == 32 && i < 39
    ensures Dec39(Flipped(data + Check39(data, false), i)) == Decoded(data, true, false)
  {
    Good39();
    assert Check39(data, false) == CheckBits(H39(), 7, data);
    Dec39IsDecode(Flipped(data + Check39(data, false), i));
    SingleCorrected(H39(), 7, data, i);
  }

  /** Every two flipped bits are reported as double, with no bit corrected. */
  lemma Secded39Double(data: BitVec, i: nat, j: nat)
    requires |data| == 32 && i < 39 && j < 39 && i != j
    ensures var x := Flipped(Flipped(data + Check39(data, false), i), j);
            Dec39(x) == Decoded(x[..32], false, true)
  {
    Good39();
    assert Check39(data, false) == CheckBits(H39(), 7, data);
    Dec39IsDecode(Flipped(Flipped(data + Check39(data, false), i), j));
    DoubleDetected(H39(), 7, data, i, j);
  }

  /** Undoing the inversion of a 22/16 word leaves its data and restores its plain check bits. */
  lemma Plain22(data: BitVec, check: BitVec)
    requires |data| == 16 && |check| == 6
    ensures Xor(data + check, Zeros(16) + Inversion(6, true)) == data + Xor(check, Inversion(6, true))
  {
  }

  lemma FlipPlain(x: BitVec, v: BitVec, i: nat)
    requires |x| == |v| && i < |x|
    ensures Xor(Flipped(x, i), v) == Flipped(Xor(x, v), i)
  {
  }

  /** 22/16 inverted: a word decodes without error exactly when its check bits are the encoder's,
      and then to its data. */
  lemma SecdedInv22Clean(data: BitVec, check: BitVec)
    requires |data| == 16 && |check| == 6
    ensures var d := DecInv22(data + check);
            && (!d.single && !d.double <==> check == Check22(data))
            && (!d.single && !d.double ==> d.data == data)
  {
    var v := Inversion(6, true);
    Good22();
    Dec22IsDecode(data + check);
    Plain22(data, check);
    CleanDecodes(H22(), 6, data, Xor(check, v));
    XorTwice(check, v);
    XorTwice(CheckBits(H22(), 6, data), v);
  }

  lemma SecdedInv22Single(data: BitVec, i: nat)
    requires |data| == 16 && i < 22
    ensures DecInv22(Flipped(data + Check22(data), i)) == Decoded(data, true, false)
  {
    var v := Zeros(16) + Inversion(6, true);
    var x := data + Check22(data);
    Good22();
    Dec22IsDecode(Flipped(x, i));
    Plain22(data, Check22(data));
    XorTwice(CheckBits(H22(), 6, data), Inversion(6, true));
    FlipPlain(x, v, i);
    SingleCorrected(H22(), 6, data, i);
  }

  lemma SecdedInv22Double(data: BitVec, i: nat, j: nat)
    requires |data| == 16 && i < 22 && j < 22 && i != j
    ensures var x := Flipped(Flipped(data + Check22(data), i), j);
            DecInv22(x) == Decoded(x[..16], false, true)
  {
    var v := Zeros(16) + Inversion(6, true);
    var x := data + Check22(data);
    var y := Flipped(Flipped(x, i), j);
    Good22();
    Dec22IsDecode(y);
    Plain22(data, Check22(data));
    XorTwice(CheckBits(H22(), 6, data), Inversion(6, true));
    FlipPlain(x, v, i);
    FlipPlain(Flipped(x, i), v, j);
    DoubleDetected(H22(), 6, data, i, j);
    assert Xor(y, v)[..16] == y[..16];
  }
}
