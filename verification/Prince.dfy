/** The PRINCE block cipher of prince_ref.h, on 64-bit words as vectors of bits, least significant
    first, so that its shifts and masks move slices. */
module Prince {
  import opened Bits
  import opened ByteVectors
  import opened Sbox

  type Word = x: BitVec | |x| == 64 witness Zeros(64)

  // ---------------------------------------------------------------- constants and tables

  const ALPHA: bv64 := 0xc0ac29b7c97c50dd

  /** The length of the table of round constants. */
  const CONSTANTS := 12

  /** prince_round_constant */
  function RoundConstant(round: nat): bv64
    requires round < CONSTANTS
  {
    match round
    case 0 => 0x0000000000000000 case 1 => 0x13198a2e03707344
    case 2 => 0xa4093822299f31d0 case 3 => 0x082efa98ec4e6c89
    case 4 => 0x452821e638d01377 case 5 => 0xbe5466cf34e90c6c
    case 6 => 0x7ef84f78fd955cb1 case 7 => 0x85840851f1ac43aa
    case 8 => 0xc882d32f25323c54 case 9 => 0x64a51195e0e3610d
    case 10 => 0xd3b5a399ca0c2399 case _ => 0xc0ac29b7c97c50dd
  }

  /** The constants of mirrored rounds differ by alpha. */
  lemma ConstantsReflect(round: nat)
    requires round < CONSTANTS
    ensures RoundConstant(round) ^ RoundConstant(11 - round) == ALPHA
  {
    if round == 0 || round == 11 {
    } else if round == 1 || round == 10 {
    } else if round == 2 || round == 9 {
    } else if round == 3 || round == 8 {
    } else if round == 4 || round == 7 {
    } else {
      assert round == 5 || round == 6;
    }
  }

  /** Bit i of a number. */
  predicate NumberBit(v: bv64, i: nat) {
    if i == 0 then v & 1 == 1 else NumberBit(v >> 1, i - 1)
  }

  lemma {:induction false} NumberBitXor(a: bv64, b: bv64, c: bv64, i: nat)
    requires c == a ^ b
    ensures NumberBit(c, i) == (NumberBit(a, i) != NumberBit(b, i))
    decreases i
  {
    if i == 0 {
      LowBitXor(a, b);
    } else {
      ShiftXor(a, b);
      NumberBitXor(a >> 1, b >> 1, c >> 1, i - 1);
      NumberBitStep(a, i);
      NumberBitStep(b, i);
      NumberBitStep(c, i);
    }
  }

  lemma NumberBitStep(v: bv64, i: nat)
    requires i > 0
    ensures NumberBit(v, i) == NumberBit(v >> 1, i - 1)
  {
  }

  lemma LowBitXor(a: bv64, b: bv64)
    ensures NumberBit(a ^ b, 0) == (NumberBit(a, 0) != NumberBit(b, 0))
  {
    assert ((a ^ b) & 1 == 1) == ((a & 1 == 1) != (b & 1 == 1));
  }

  lemma ShiftXor(a: bv64, b: bv64)
    ensures (a ^ b) >> 1 == (a >> 1) ^ (b >> 1)
  {
  }

  /** The bits of a constant. */
  function BitsOf(v: bv64): Word {
    seq(64, i requires 0 <= i < 64 => NumberBit(v, i))
  }

  /** prince_sbox */
  function Sbox4(n: Nib): Nib {
    match n
    case 0 => 0xb case 1 => 0xf case 2 => 0x3 case 3 => 0x2
    case 4 => 0xa case 5 => 0xc case 6 => 0x9 case 7 => 0x1
    case 8 => 0x6 case 9 => 0x7 case 10 => 0x8 case 11 => 0x0
    case 12 => 0xe case 13 => 0x5 case 14 => 0xd case _ => 0x4
  }

  /** prince_sbox_inv */
  function Sbox4Inv(n: Nib): Nib {
    match n
    case 0 => 0xb case 1 => 0x7 case 2 => 0x3 case 3 => 0x2
    case 4 => 0xf case 5 => 0xd case 6 => 0x8 case 7 => 0x9
    case 8 => 0xa case 9 => 0x6 case 10 => 0x4 case 11 => 0x0
    case 12 => 0x5 case 13 => 0xe case 14 => 0xc case _ => 0x1
  }

  function Table(inv: bool): Nib -> Nib {
    if inv then Sbox4Inv else Sbox4
  }

  lemma TablesInverse(inv: bool, n: Nib)
    ensures Table(!inv)(Table(inv)(n)) == n
  {
  }

  // ---------------------------------------------------------------- the S layer

  function SLayer(inv: bool, x: Word): Word {
    SboxLayer(Table(inv), x)
  }

  lemma SLayersInverse(inv: bool, x: Word)
    ensures SLayer(!inv, SLayer(inv, x)) == x
  {
    forall n: Nib ensures Table(!inv)(Table(inv)(n)) == n { TablesInverse(inv, n); }
    SboxLayersInverse(Table(inv), Table(!inv), x);
  }

  /** prince_s_layer and prince_s_inv_layer. */
  method ComputeSLayer(inv: bool, x: Word) returns (out: Word)
    ensures out == SLayer(inv, x)
  {
    LayerSubstitutes(Table(inv), x);
    out := Substitute(Table(inv), x, SLayer(inv, x));
  }

  /** Nibble by nibble into a cleared word. */
  method Substitute(table: Nib -> Nib, x: Word, ghost y: Word) returns (out: Word)
    requires Substituted(table, x, y)
    ensures out == y
  {
    out := Zeros(64);
    for i := 0 to 16
      invariant forall k | 0 <= k < 64 :: out[k] == (k < 4 * i && y[k])
    {
      var shift := i * 4;
      var sboxIn := Shr(x, shift)[..4];
      assert sboxIn == Nibble(x, i);
      var sboxOut := SboxNibble(table, sboxIn);
      assert sboxOut == Nibble(y, i);
      assert forall k | shift <= k < shift + 4 :: sboxOut[k - shift] == y[k];
      out := Or(out, Shl(sboxOut, shift, 64));
    }
  }

  // ---------------------------------------------------------------- the M' layer

  /** The table m16: row i of matrix t. */
  function MatrixRow(t: nat, i: nat): nat
    requires t < 2 && i < 16
  {
    if t == 0 then
      match i
      case 0 => 0x0111 case 1 => 0x2220 case 2 => 0x4404 case 3 => 0x8088
      case 4 => 0x1011 case 5 => 0x0222 case 6 => 0x4440 case 7 => 0x8808
      case 8 => 0x1101 case 9 => 0x2022 case 10 => 0x0444 case 11 => 0x8880
      case 12 => 0x1110 case 13 => 0x2202 case 14 => 0x4044 case _ => 0x0888
    else
      match i
      case 0 => 0x1110 case 1 => 0x2202 case 2 => 0x4044 case 3 => 0x0888
      case 4 => 0x0111 case 5 => 0x2220 case 6 => 0x4404 case 7 => 0x8088
      case 8 => 0x1011 case 9 => 0x0222 case 10 => 0x4440 case 11 => 0x8808
      case 12 => 0x1101 case 13 => 0x2022 case 14 => 0x0444 case _ => 0x8880
  }

  /** Hex digit c of a 16-bit number. */
  function Digit(v: nat, c: nat): Nib {
    (if c == 0 then v else if c == 1 then v / 0x10 else if c == 2 then v / 0x100 else v / 0x1000) % 16
  }

  /** Bit r of digit c of a 16-bit number. */
  predicate RowBit(v: nat, c: nat, r: nat) {
    NibBit(Digit(v, c), r)
  }

  /** The input nibble that bit r of output nibble c of matrix t leaves out. */
  function Skipped(t: nat, c: nat, r: nat): (b: nat)
    requires t < 2 && c < 4 && r < 4
    ensures b < 4
  {
    var d := r + 3 + t - c;
    if d >= 4 then d - 4 else d
  }

  function Power(r: nat): Nib {
    if r == 0 then 1 else if r == 1 then 2 else if r == 2 then 4 else 8
  }

  /** What the tables say: every digit of row 4 * b + q is the power of two of q, but for one
      zero. */
  function TableDigit(t: nat, b: nat, q: nat, c: nat): Nib
    requires t < 2 && b < 4 && q < 4 && c < 4
  {
    if b == Skipped(t, c, q) then 0 else Power(q)
  }

  function Digits(d0: Nib, d1: Nib, d2: Nib, d3: Nib): nat {
    d0 + 0x10 * d1 + 0x100 * d2 + 0x1000 * d3
  }

  lemma DigitOf(d0: Nib, d1: Nib, d2: Nib, d3: Nib, c: nat)
    requires c < 4
    ensures Digit(Digits(d0, d1, d2, d3), c) == if c == 0 then d0 else if c == 1 then d1 else if c == 2 then d2 else d3
  {
    var v := Digits(d0, d1, d2, d3);
    if c == 0 {
      LowDigit(v, d0, d1 + 0x10 * d2 + 0x100 * d3);
    } else if c == 1 {
      assert v / 0x10 == d1 + 0x10 * d2 + 0x100 * d3;
      LowDigit(v / 0x10, d1, d2 + 0x10 * d3);
    } else if c == 2 {
      assert v / 0x100 == d2 + 0x10 * d3;
      LowDigit(v / 0x100, d2, d3);
    } else {
      assert v / 0x1000 == d3;
      LowDigit(v / 0x1000, d3, 0);
    }
  }

  lemma LowDigit(v: nat, d: Nib, rest: nat)
    requires v == d + 0x10 * rest
    ensures v % 16 == d
  {
  }

  lemma RowDigits(t: nat, b: nat, q: nat)
    requires t < 2 && b < 4 && q < 4
    ensures var i := 4 * b + q;
            MatrixRow(t, i) ==
            Digits(TableDigit(t, b, q, 0), TableDigit(t, b, q, 1), TableDigit(t, b, q, 2), TableDigit(t, b, q, 3))
  {
    if t == 0 { RowDigits0(b, q); } else { RowDigits1(b, q); }
  }

  lemma RowDigits0(b: nat, q: nat)
    requires b < 4 && q < 4
    ensures MatrixRow(0, 4 * b + q) ==
            Digits(TableDigit(0, b, q, 0), TableDigit(0, b, q, 1), TableDigit(0, b, q, 2), TableDigit(0, b, q, 3))
  {
    match b case 0 => case 1 => case 2 => case _ =>
  }

  lemma RowDigits1(b: nat, q: nat)
    requires b < 4 && q < 4
    ensures MatrixRow(1, 4 * b + q) ==
            Digits(TableDigit(1, b, q, 0), TableDigit(1, b, q, 1), TableDigit(1, b, q, 2), TableDigit(1, b, q, 3))
  {
    match b case 0 => case 1 => case 2 => case _ =>
  }

  lemma DigitShape(t: nat, b: nat, q: nat, c: nat)
    requires t < 2 && b < 4 && q < 4 && c < 4
    ensures Digit(MatrixRow(t, 4 * b + q), c) == TableDigit(t, b, q, c)
  {
    RowDigits(t, b, q);
    DigitOf(TableDigit(t, b, q, 0), TableDigit(t, b, q, 1), TableDigit(t, b, q, 2), TableDigit(t, b, q, 3), c);
  }

  lemma PowerBit(q: nat, r: nat)
    requires q < 4 && r < 4
    ensures NibBit(Power(q), r) <==> q == r
  {
  }

  /** So bit r of an output nibble takes bit r of every input nibble but one. */
  lemma MatrixShape(t: nat, b: nat, q: nat, c: nat, r: nat)
    requires t < 2 && b < 4 && q < 4 && c < 4 && r < 4
    ensures RowBit(MatrixRow(t, 4 * b + q), c, r) <==> q == r && b != Skipped(t, c, r)
  {
    DigitShape(t, b, q, c);
    PowerBit(q, r);
  }

  function MatrixRowBits(t: nat, i: nat): (r: BitVec)
    requires t < 2 && i < 16
    ensures |r| == 16
  {
    seq(16, j requires 0 <= j < 16 => RowBit(MatrixRow(t, i), j / 4, j % 4))
  }

  /** Bit (c, r) of the sum of the rows that the first n bits of a vector select. */
  predicate RowSum(t: nat, x: BitVec, c: nat, r: nat, n: nat)
    requires t < 2 && |x| == 16 && c < 4 && r < 4 && n <= 16
  {
    n > 0 && RowSum(t, x, c, r, n - 1) != (x[n - 1] && RowBit(MatrixRow(t, n - 1), c, r))
  }

  /** The product of a 16-bit vector and matrix t. */
  function Times(t: nat, x: BitVec): (y: BitVec)
    requires t < 2 && |x| == 16
    ensures |y| == 16
  {
    seq(16, j requires 0 <= j < 16 => TimesBit(t, x, j / 4, j % 4))
  }

  /** Bit (c, r) of the product: the sum of the bits r of three nibbles. */
  predicate TimesBit(t: nat, x: BitVec, c: nat, r: nat)
    requires t < 2 && |x| == 16 && c < 4 && r < 4
  {
    Column(x, r) != x[4 * Skipped(t, c, r) + r]
  }

  predicate Column(x: BitVec, r: nat)
    requires |x| == 16 && r < 4
  {
    (x[r] != x[4 + r]) != (x[8 + r] != x[12 + r])
  }

  lemma TimesAt(t: nat, x: BitVec, c: nat, r: nat)
    requires t < 2 && |x| == 16 && c < 4 && r < 4
    ensures Times(t, x)[4 * c + r] == TimesBit(t, x, c, r)
  {
    assert (4 * c + r) / 4 == c && (4 * c + r) % 4 == r;
  }

  /** Four rows of the sum. */
  lemma FourRows(t: nat, x: BitVec, c: nat, r: nat, b: nat)
    requires t < 2 && |x| == 16 && c < 4 && r < 4 && b < 4
    ensures RowSum(t, x, c, r, 4 * b + 4) ==
            (RowSum(t, x, c, r, 4 * b) != (x[4 * b + r] && b != Skipped(t, c, r)))
  {
    OneRow(t, x, c, r, b, 0);
    OneRow(t, x, c, r, b, 1);
    OneRow(t, x, c, r, b, 2);
    OneRow(t, x, c, r, b, 3);
  }

  lemma OneRow(t: nat, x: BitVec, c: nat, r: nat, b: nat, q: nat)
    requires t < 2 && |x| == 16 && c < 4 && r < 4 && b < 4 && q < 4
    ensures RowSum(t, x, c, r, 4 * b + q + 1) ==
            (RowSum(t, x, c, r, 4 * b + q) != (q == r && b != Skipped(t, c, r) && x[4 * b + q]))
  {
    MatrixShape(t, b, q, c, r);
  }

  lemma AllRows(t: nat, x: BitVec, c: nat, r: nat)
    requires t < 2 && |x| == 16 && c < 4 && r < 4
    ensures RowSum(t, x, c, r, 16) == TimesBit(t, x, c, r)
  {
    FourRows(t, x, c, r, 0);
    FourRows(t, x, c, r, 1);
    FourRows(t, x, c, r, 2);
    FourRows(t, x, c, r, 3);
  }

  /** gf2_mat_mult16_1: the sum of the rows selected by the low 16 bits. */
  method ComputeTimes(x: BitVec, t: nat) returns (out: BitVec)
    requires t < 2 && |x| >= 16
    ensures out == Times(t, x[..16])
  {
    out := Zeros(16);
    for i := 0 to 16
      invariant |out| == 16
      invariant forall j | 0 <= j < 16 :: out[j] == RowSum(t, x[..16], j / 4, j % 4, i)
    {
      if x[i] {
        out := Xor(out, MatrixRowBits(t, i));
      }
    }
    forall j | 0 <= j < 16 ensures out[j] == Times(t, x[..16])[j] { AllRows(t, x[..16], j / 4, j % 4); }
  }

  /** Both matrices are their own inverses. */
  lemma TimesTwice(t: nat, x: BitVec)
    requires t < 2 && |x| == 16
    ensures Times(t, Times(t, x)) == x
  {
    forall j | 0 <= j < 16 ensures Times(t, Times(t, x))[j] == x[j] {
      TimesTwiceAt(t, x, j / 4, j % 4);
    }
  }

  lemma SkippedTwice(t: nat, c: nat, r: nat)
    requires t < 2 && c < 4 && r < 4
    ensures Skipped(t, Skipped(t, c, r), r) == c
  {
  }

  lemma TimesTwiceAt(t: nat, x: BitVec, c: nat, r: nat)
    requires t < 2 && |x| == 16 && c < 4 && r < 4
    ensures Times(t, Times(t, x))[4 * c + r] == x[4 * c + r]
  {
    var y := Times(t, x);
    var b := Skipped(t, c, r);
    SkippedTwice(t, c, r);
    TimesAt(t, x, b, r);
    assert y[4 * b + r] == (Column(x, r) != x[4 * c + r]);
    ColumnKept(t, x, r);
    TimesAt(t, y, c, r);
  }

  /** The sum of a column survives the multiplication. */
  lemma ColumnKept(t: nat, x: BitVec, r: nat)
    requires t < 2 && |x| == 16 && r < 4
    ensures Column(Times(t, x), r) == Column(x, r)
  {
    TimesAt(t, x, 0, r);
    TimesAt(t, x, 1, r);
    TimesAt(t, x, 2, r);
    TimesAt(t, x, 3, r);
    ProductColumn(t, x, r);
  }

  lemma ProductColumn(t: nat, x: BitVec, r: nat)
    requires t < 2 && |x| == 16 && r < 4
    ensures ((TimesBit(t, x, 0, r) != TimesBit(t, x, 1, r)) !=
             (TimesBit(t, x, 2, r) != TimesBit(t, x, 3, r))) == Column(x, r)
  {
    SkippedColumn(t, x, r);
    FourSums(Column(x, r), x[4 * Skipped(t, 0, r) + r], x[4 * Skipped(t, 1, r) + r],
             x[4 * Skipped(t, 2, r) + r], x[4 * Skipped(t, 3, r) + r]);
  }

  lemma FourSums(s: bool, a: bool, b: bool, c: bool, d: bool)
    requires s == ((a != b) != (c != d))
    ensures (((s != a) != (s != b)) != ((s != c) != (s != d))) == s
  {
  }

  /** The nibbles left out by the four output nibbles are all four of them. */
  lemma SkippedColumn(t: nat, x: BitVec, r: nat)
    requires t < 2 && |x| == 16 && r < 4
    ensures Column(x, r) == ((x[4 * Skipped(t, 0, r) + r] != x[4 * Skipped(t, 1, r) + r]) !=
                             (x[4 * Skipped(t, 2, r) + r] != x[4 * Skipped(t, 3, r) + r]))
  {
    if t == 0 && r == 0 {
    } else if t + r == 1 {
    } else if t + r == 2 {
    } else if t + r == 3 {
    }
  }

  /** The M' layer: matrix 0 for the outer chunks and matrix 1 for the inner ones. */
  function MPrime(x: Word): Word {
    Times(0, x[..16]) + Times(1, x[16..32]) + Times(1, x[32..48]) + Times(0, x[48..])
  }

  lemma ChunksJoin(a: BitVec, b: BitVec, c: BitVec, d: BitVec)
    requires |a| == |b| == |c| == |d| == 16
    ensures Or(Or(Or(Shl(d, 48, 64), Shl(c, 32, 64)), Shl(b, 16, 64)), Shl(a, 0, 64)) == a + b + c + d
  {
  }

  /** prince_m_prime_layer */
  method ComputeMPrime(x: Word) returns (out: Word)
    ensures out == MPrime(x)
  {
    var chunk0 := ComputeTimes(Shr(x, 0), 0);
    var chunk1 := ComputeTimes(Shr(x, 16), 1);
    var chunk2 := ComputeTimes(Shr(x, 32), 1);
    var chunk3 := ComputeTimes(Shr(x, 48), 0);
    assert Shr(x, 0)[..16] == x[..16] && Shr(x, 16)[..16] == x[16..32];
    assert Shr(x, 32)[..16] == x[32..48] && Shr(x, 48)[..16] == x[48..];
    ChunksJoin(chunk0, chunk1, chunk2, chunk3);
    out := Or(Or(Or(Shl(chunk3, 48, 64), Shl(chunk2, 32, 64)), Shl(chunk1, 16, 64)), Shl(chunk0, 0, 64));
  }

  lemma MPrimeTwice(x: Word)
    ensures MPrime(MPrime(x)) == x
  {
    var y := MPrime(x);
    assert y[..16] == Times(0, x[..16]) && y[16..32] == Times(1, x[16..32]);
    assert y[32..48] == Times(1, x[32..48]) && y[48..] == Times(0, x[48..]);
    TimesTwice(0, x[..16]);
    TimesTwice(1, x[16..32]);
    TimesTwice(1, x[32..48]);
    TimesTwice(0, x[48..]);
    assert x == x[..16] + x[16..32] + x[32..48] + x[48..];
  }

  // ---------------------------------------------------------------- the row shifts

  /** The row of bit k: rows are nibbles of each 16-bit chunk, numbered from the top. */
  function RowOf(k: nat): nat {
    3 - k % 16 / 4
  }

  function RowShift(inv: bool, i: nat): nat
    requires i < 4
  {
    if inv then i * 16 else 64 - i * 16
  }

  /** The bit that a rotation by n to the right brings to place k. */
  function RotatedFrom(k: nat, n: nat): (m: nat)
    requires k < 64 && n <= 64
    ensures m < 64
  {
    if k + n < 64 then k + n else k + n - 64
  }

  /** Row i rotated by 16 i bits. */
  function ShiftRows(inv: bool, x: Word): Word {
    seq(64, k requires 0 <= k < 64 => x[RotatedFrom(k, RowShift(inv, RowOf(k)))])
  }

  lemma ShiftRowsInverse(inv: bool, x: Word)
    ensures ShiftRows(!inv, ShiftRows(inv, x)) == x
  {
    forall k | 0 <= k < 64 ensures ShiftRows(!inv, ShiftRows(inv, x))[k] == x[k] {
      RowKept(k, RowOf(k), !inv);
    }
  }

  /** A rotation by whole chunks keeps every bit in its row. */
  lemma RowKept(k: nat, i: nat, inv: bool)
    requires k < 64 && i < 4
    ensures RowOf(RotatedFrom(k, RowShift(inv, i))) == RowOf(k)
  {
    var m := RotatedFrom(k, RowShift(inv, i));
    assert exists u: int :: m == k + 16 * u by {
      var u := if inv then i else 4 - i;
      assert m == k + 16 * u || m == k + 16 * (u - 4);
    }
    var u: int :| m == k + 16 * u;
    assert m % 16 == k % 16;
  }

  /** row_mask >> (4 * i): the bits of row i. */
  function RowMask(i: nat): Word
    requires i < 4
  {
    seq(64, k requires 0 <= k < 64 => RowOf(k) == i)
  }

  function And(a: Word, b: Word): Word {
    seq(64, k requires 0 <= k < 64 => a[k] && b[k])
  }

  /** prince_shift_rows. A shift by 64 clears the word here; where it occurs the other term of the
      or holds the whole row. */
  method ComputeShiftRows(x: Word, inv: bool) returns (out: Word)
    ensures out == ShiftRows(inv, x)
  {
    out := Zeros(64);
    for i := 0 to 4
      invariant forall k | 0 <= k < 64 :: out[k] == (RowOf(k) < i && ShiftRows(inv, x)[k])
    {
      var row := And(x, RowMask(i));
      var shift := if inv then i * 16 else 64 - i * 16;
      var rotated := Or(Shr(row, shift), Shl(row, 64 - shift, 64));
      forall k | 0 <= k < 64 ensures rotated[k] == (RowOf(k) == i && ShiftRows(inv, x)[k]) {
        RotatedRow(row, shift, k);
        RowKept(k, i, inv);
      }
      out := Or(out, rotated);
    }
  }

  lemma RotatedRow(row: Word, shift: nat, k: nat)
    requires shift <= 64 && k < 64
    ensures Or(Shr(row, shift), Shl(row, 64 - shift, 64))[k] == row[RotatedFrom(k, shift)]
  {
  }

  // ---------------------------------------------------------------- the M layer and the core

  /** prince_m_layer */
  function MLayer(x: Word): Word {
    ShiftRows(false, MPrime(x))
  }

  /** prince_m_inv_layer */
  function MInvLayer(x: Word): Word {
    MPrime(ShiftRows(true, x))
  }

  /** The unkeyed part of a forward round, and of a backward round. */
  function Forth(x: Word): Word {
    MLayer(SLayer(false, x))
  }

  function Back(x: Word): Word {
    SLayer(true, MInvLayer(x))
  }

  lemma RoundLayersInverse(x: Word)
    ensures Back(Forth(x)) == x && Forth(Back(x)) == x
  {
    ShiftRowsInverse(false, MPrime(SLayer(false, x)));
    MPrimeTwice(SLayer(false, x));
    SLayersInverse(false, x);
    SLayersInverse(true, MInvLayer(x));
    MPrimeTwice(ShiftRows(true, x));
    ShiftRowsInverse(true, x);
  }

  /** The middle of the cipher, its own inverse. */
  function Middle(x: Word): Word {
    SLayer(true, MPrime(SLayer(false, x)))
  }

  lemma MiddleTwice(x: Word)
    ensures Middle(Middle(x)) == x
  {
    SLayersInverse(true, MPrime(SLayer(false, x)));
    MPrimeTwice(SLayer(false, x));
    SLayersInverse(false, x);
  }

  // ---------------------------------------------------------------- rounds

  /** Add a key and the constant of a round. */
  function AddKey(x: Word, key: Word, round: nat): Word
    requires round < CONSTANTS
  {
    Xor(Xor(x, key), BitsOf(RoundConstant(round)))
  }

  function Reflected(key: Word): Word {
    Xor(key, BitsOf(ALPHA))
  }

  /** The additions of mirrored rounds cancel when the key is reflected. */
  lemma AddKeyCancels(x: Word, key: Word, round: nat)
    requires round < CONSTANTS
    ensures AddKey(AddKey(x, key, round), Reflected(key), 11 - round) == x
  {
    ConstantsReflect(round);
    var a, b := RoundConstant(round), RoundConstant(11 - round);
    var y := AddKey(AddKey(x, key, round), Reflected(key), 11 - round);
    forall i | 0 <= i < 64 ensures y[i] == x[i] {
      NumberBitXor(a, b, ALPHA, i);
      assert Reflected(key)[i] == (key[i] != NumberBit(ALPHA, i));
    }
  }

  lemma Cancel(x: Word, key: Word, round: nat, y: Word, key': Word, round': nat)
    requires round < CONSTANTS && y == AddKey(x, key, round)
    requires key' == Reflected(key) && round' == 11 - round
    ensures AddKey(y, key', round') == x
  {
    AddKeyCancels(x, key, round);
  }

  lemma ReflectedTwice(key: Word)
    ensures Reflected(Reflected(key)) == key
  {
    XorTwice(key, BitsOf(ALPHA));
  }

  /** The keys of the core: k0_new in odd rounds and k1 in even ones. */
  datatype Keys = Keys(k0New: Word, k1: Word) {
    function Of(round: nat): Word {
      if round % 2 == 1 then k0New else k1
    }

    function Reflect(): Keys {
      Keys(Reflected(k0New), Reflected(k1))
    }
  }

  /** The state after n forward rounds with unkeyed part f. */
  function Forward(f: Word -> Word, x: Word, keys: Keys, n: nat): Word
    requires n < CONSTANTS
  {
    if n == 0 then AddKey(x, keys.k1, 0) else AddKey(f(Forward(f, x, keys, n - 1)), keys.Of(n), n)
  }

  /** The state after r of n backward rounds with unkeyed part g. */
  function Backward(g: Word -> Word, y: Word, keys: Keys, n: nat, r: nat): Word
    requires r <= n < CONSTANTS
  {
    if r == 0 then y else g(AddKey(Backward(g, y, keys, n, r - 1), keys.Of(n + r + 1), 10 - n + r))
  }

  /** Backward rounds with reflected keys undo the last forward rounds. */
  lemma {:induction false} BackwardUndoes(f: Word -> Word, g: Word -> Word, x: Word, keys: Keys, n: nat, r: nat)
    requires r <= n < CONSTANTS && forall z :: g(f(z)) == z
    ensures Backward(g, Forward(f, x, keys, n), keys.Reflect(), n, r) == Forward(f, x, keys, n - r)
    decreases r
  {
    if r > 0 {
      var z := Forward(f, x, keys, n - r);
      BackwardUndoes(f, g, x, keys, n, r - 1);
      assert n - (r - 1) == n + 1 - r;
      ForwardRoundUndone(f, x, keys, n, r);
      BackwardStep(g, Forward(f, x, keys, n), keys.Reflect(), n, r, Forward(f, x, keys, n + 1 - r));
      assert g(f(z)) == z;
    }
  }

  lemma BackwardStep(g: Word -> Word, y: Word, keys: Keys, n: nat, r: nat, z: Word)
    requires 0 < r <= n < CONSTANTS && Backward(g, y, keys, n, r - 1) == z
    ensures Backward(g, y, keys, n, r) == g(AddKey(z, keys.Of(n + r + 1), 10 - n + r))
  {
  }

  /** The key addition of backward round r cancels that of the forward round it mirrors. */
  lemma ForwardRoundUndone(f: Word -> Word, x: Word, keys: Keys, n: nat, r: nat)
    requires 0 < r <= n < CONSTANTS
    ensures AddKey(Forward(f, x, keys, n + 1 - r), keys.Reflect().Of(n + r + 1), 10 - n + r) ==
            f(Forward(f, x, keys, n - r))
  {
    var q := n + 1 - r;
    SameParity(keys, n, r);
    Cancel(f(Forward(f, x, keys, q - 1)), keys.Of(q), q,
           Forward(f, x, keys, q), keys.Reflect().Of(n + r + 1), 10 - n + r);
  }

  /** Forward rounds with reflected keys undo the last backward rounds. */
  lemma {:induction false} ForwardUndoes(f: Word -> Word, g: Word -> Word, y: Word, keys: Keys, n: nat, j: nat)
    requires j <= n < CONSTANTS && forall z :: f(g(z)) == z
    ensures Forward(f, AddKey(Backward(g, y, keys, n, n), keys.k1, 11), keys.Reflect(), j) ==
            Backward(g, y, keys, n, n - j)
    decreases j
  {
    if j == 0 {
      AddKeyCancels(Backward(g, y, keys, n, n), keys.k1, 11);
    } else {
      var r := n + 1 - j;
      ForwardUndoes(f, g, y, keys, n, j - 1);
      SameParity(keys, n, r);
      AddKeyCancels(Backward(g, y, keys, n, n - j), keys.Of(n + r + 1), 10 - n + r);
    }
  }

  /** Mirrored rounds use the same one of the two keys. */
  lemma SameParity(keys: Keys, n: nat, r: nat)
    requires 0 < r <= n
    ensures keys.Of(n + r + 1) == keys.Of(n + 1 - r)
    ensures keys.Reflect().Of(n + r + 1) == Reflected(keys.Of(n + 1 - r))
    ensures keys.Reflect().Of(n + 1 - r) == Reflected(keys.Of(n + r + 1))
  {
    assert n + r + 1 == (n + 1 - r) + 2 * r;
  }

  /** The core with its unkeyed parts as parameters. */
  function CoreOf(f: Word -> Word, g: Word -> Word, m: Word -> Word, x: Word, keys: Keys, n: nat): Word
    requires n < CONSTANTS
  {
    AddKey(Backward(g, m(Forward(f, x, keys, n)), keys, n, n), keys.k1, 11)
  }

  /** Reflection, for any unkeyed parts: the core under reflected keys is the inverse of the core. */
  lemma CoreReflects(f: Word -> Word, g: Word -> Word, m: Word -> Word, x: Word, keys: Keys, n: nat)
    requires n < CONSTANTS
    requires forall z :: g(f(z)) == z
    requires forall z :: f(g(z)) == z
    requires forall z :: m(m(z)) == z
    ensures CoreOf(f, g, m, CoreOf(f, g, m, x, keys, n), keys.Reflect(), n) == x
  {
    var mid := Forward(f, x, keys, n);
    ForwardUndoes(f, g, m(mid), keys, n, n);
    BackwardUndoes(f, g, x, keys, n, n);
    AddKeyCancels(x, keys.k1, 0);
  }

  /** prince_core */
  function Core(x: Word, keys: Keys, n: nat): Word
    requires n < CONSTANTS
  {
    CoreOf(Forth, Back, Middle, x, keys, n)
  }

  /** The core under keys plus alpha inverts the core, for every number of half rounds that the
      table of constants allows. */
  lemma CoreInverse(x: Word, keys: Keys, n: nat)
    requires n < CONSTANTS
    ensures Core(Core(x, keys, n), keys.Reflect(), n) == x
  {
    forall z ensures Back(Forth(z)) == z && Forth(Back(z)) == z { RoundLayersInverse(z); }
    forall z ensures Middle(Middle(z)) == z { MiddleTwice(z); }
    CoreReflects(Forth, Back, Middle, x, keys, n);
  }

  /** The body of the first loop of prince_core. */
  method ForwardRound(roundInput: Word, k0New: Word, k1: Word, round: nat, ghost f: Word -> Word)
    returns (r: Word)
    requires round < CONSTANTS && (forall z {:trigger Forth(z)} :: f(z) == Forth(z))
    ensures r == AddKey(f(roundInput), Keys(k0New, k1).Of(round), round)
  {
    var sOut := ComputeSLayer(false, roundInput);
    var mPrimeOut := ComputeMPrime(sOut);
    var mOut := ComputeShiftRows(mPrimeOut, false);
    assert mOut == Forth(roundInput);
    r := if round % 2 == 1 then Xor(Xor(mOut, k0New), BitsOf(RoundConstant(round)))
         else Xor(Xor(mOut, k1), BitsOf(RoundConstant(round)));
  }

  /** The body of the second loop of prince_core. */
  method BackwardRound(roundInput: Word, k0New: Word, k1: Word, n: nat, round: nat, ghost g: Word -> Word)
    returns (r: Word)
    requires 0 < round <= n < CONSTANTS && (forall z {:trigger Back(z)} :: g(z) == Back(z))
    ensures r == g(AddKey(roundInput, Keys(k0New, k1).Of(n + round + 1), 10 - n + round))
  {
    var constantIdx := 10 - n + round;
    var mInvIn := if (n + round + 1) % 2 == 1 then Xor(Xor(roundInput, k0New), BitsOf(RoundConstant(constantIdx)))
                  else Xor(Xor(roundInput, k1), BitsOf(RoundConstant(constantIdx)));
    r := ComputeBack(mInvIn, g);
  }

  /** prince_m_inv_layer and prince_s_inv_layer. */
  method ComputeBack(mInvIn: Word, ghost g: Word -> Word) returns (r: Word)
    requires forall z {:trigger Back(z)} :: g(z) == Back(z)
    ensures r == g(mInvIn)
  {
    var shiftRowsOut := ComputeShiftRows(mInvIn, true);
    var sInvIn := ComputeMPrime(shiftRowsOut);
    r := ComputeSLayer(true, sInvIn);
    assert r == Back(mInvIn);
  }

  /** The middle round of prince_core. */
  method MiddleRound(roundInput: Word) returns (r: Word)
    ensures r == Middle(roundInput)
  {
    var sOut := ComputeSLayer(false, roundInput);
    var mPrimeOut := ComputeMPrime(sOut);
    r := ComputeSLayer(true, mPrimeOut);
  }

  /** The first loop of prince_core. */
  method ForwardRounds(coreInput: Word, k0New: Word, k1: Word, numHalfRounds: nat, ghost f: Word -> Word)
    returns (roundInput: Word)
    requires numHalfRounds < CONSTANTS && (forall z {:trigger Forth(z)} :: f(z) == Forth(z))
    ensures roundInput == Forward(f, coreInput, Keys(k0New, k1), numHalfRounds)
  {
    roundInput := Xor(Xor(coreInput, k1), BitsOf(RoundConstant(0)));
    for i := 0 to numHalfRounds
      invariant roundInput == Forward(f, coreInput, Keys(k0New, k1), i)
    {
      roundInput := ForwardRound(roundInput, k0New, k1, i + 1, f);
    }
  }

  /** The second loop of prince_core. */
  method BackwardRounds(middle: Word, k0New: Word, k1: Word, numHalfRounds: nat, ghost g: Word -> Word)
    returns (roundInput: Word)
    requires numHalfRounds < CONSTANTS && (forall z {:trigger Back(z)} :: g(z) == Back(z))
    ensures roundInput == Backward(g, middle, Keys(k0New, k1), numHalfRounds, numHalfRounds)
  {
    roundInput := middle;
    for i := 0 to numHalfRounds
      invariant roundInput == Backward(g, middle, Keys(k0New, k1), numHalfRounds, i)
    {
      roundInput := BackwardRound(roundInput, k0New, k1, numHalfRounds, i + 1, g);
    }
  }

  /** prince_core: the rounds as loops over the state. */
  method ComputeCore(coreInput: Word, k0New: Word, k1: Word, numHalfRounds: nat) returns (coreOutput: Word)
    requires numHalfRounds < CONSTANTS
    ensures coreOutput == Core(coreInput, Keys(k0New, k1), numHalfRounds)
  {
    var roundInput := ForwardRounds(coreInput, k0New, k1, numHalfRounds, Forth);
    roundInput := MiddleRound(roundInput);
    roundInput := BackwardRounds(roundInput, k0New, k1, numHalfRounds, Back);
    coreOutput := Xor(Xor(roundInput, k1), BitsOf(RoundConstant(11)));
  }

  // ---------------------------------------------------------------- the cipher

  /** prince_k0_to_k0_prime */
  function K0Prime(k0: Word): Word {
    Xor(Or(Shr(k0, 1), Shl(k0, 63, 64)), Shr(k0, 63))
  }

  /** prince_enc_dec_uint64 */
  function Crypt(input: Word, encK0: Word, encK1: Word, decrypt: bool, n: nat, oldKeySchedule: bool): Word
    requires n < CONSTANTS
  {
    var k1 := if decrypt then Reflected(encK1) else encK1;
    var k0New := if oldKeySchedule then k1 else if decrypt then Reflected(encK0) else encK0;
    var k0 := if decrypt then K0Prime(encK0) else encK0;
    var k0Prime := if decrypt then encK0 else K0Prime(encK0);
    Xor(Core(Xor(input, k0), Keys(k0New, k1), n), k0Prime)
  }

  /** prince_enc_dec_uint64, through the loops of the core. */
  method EncDec(input: Word, encK0: Word, encK1: Word, decrypt: bool, numHalfRounds: nat, oldKeySchedule: bool)
    returns (output: Word)
    requires numHalfRounds < CONSTANTS
    ensures output == Crypt(input, encK0, encK1, decrypt, numHalfRounds, oldKeySchedule)
  {
    var k1 := if decrypt then Reflected(encK1) else encK1;
    var k0New := if oldKeySchedule then k1 else if decrypt then Reflected(encK0) else encK0;
    var k0 := if decrypt then K0Prime(encK0) else encK0;
    var k0Prime := if decrypt then encK0 else K0Prime(encK0);
    var coreOutput := ComputeCore(Xor(input, k0), k0New, k1, numHalfRounds);
    output := Xor(coreOutput, k0Prime);
  }

  /** For every block, both key halves, both key schedules and every number of half rounds, either
      direction undoes the other. */
  lemma CryptInverse(x: Word, encK0: Word, encK1: Word, decrypt: bool, n: nat, oldKeySchedule: bool)
    requires n < CONSTANTS
    ensures Crypt(Crypt(x, encK0, encK1, decrypt, n, oldKeySchedule), encK0, encK1, !decrypt, n, oldKeySchedule) == x
  {
    var k0 := if decrypt then K0Prime(encK0) else encK0;
    var k0Prime := if decrypt then encK0 else K0Prime(encK0);
    var k1 := if decrypt then Reflected(encK1) else encK1;
    var k0New := if oldKeySchedule then k1 else if decrypt then Reflected(encK0) else encK0;
    var keys := Keys(k0New, k1);
    ReflectedTwice(encK0);
    ReflectedTwice(encK1);
    var y := Core(Xor(x, k0), keys, n);
    XorTwice(y, k0Prime);
    CoreInverse(Xor(x, k0), keys, n);
    XorTwice(x, k0);
  }

  // ---------------------------------------------------------------- the byte interface

  /** The word with these bytes, most significant first. */
  function WordOf(bytes: Vec): Word
    requires |bytes| == 8
  {
    LowBits(ByteReverse(bytes), 64)
  }

  /** bytes_to_uint64 */
  method BytesToUint64(bytes: Vec) returns (out: Word)
    requires |bytes| == 8
    ensures out == WordOf(bytes)
  {
    out := Zeros(64);
    for i := 0 to 8
      invariant forall k | 0 <= k < 64 :: out[k] == Bit(ByteReverse(bytes[..i]), k)
    {
      assert ByteReverse(bytes[..i + 1]) == [bytes[i]] + ByteReverse(bytes[..i]);
      assert ByteReverse(bytes[..i + 1])[1..] == ByteReverse(bytes[..i]);
      out := Or(Shl(out, 8, 64), bytes[i]);
    }
    assert bytes[..8] == bytes;
  }

  /** The bytes of a word, most significant first. */
  function BytesOf(w: Word): (v: Vec)
    ensures |v| == 8
  {
    ByteReverse(LittleEndian(w))
  }

  /** uint64_to_bytes */
  method Uint64ToBytes(input: Word) returns (out: Vec)
    ensures out == BytesOf(input)
  {
    out := [];
    for i := 0 to 8
      invariant |out| == i && forall k | 0 <= k < i :: out[k] == Shr(input, (7 - k) * 8)[..8]
    {
      out := out + [Shr(input, (7 - i) * 8)[..8]];
    }
    forall i | 0 <= i < 8 ensures out[i] == BytesOf(input)[i] {
      LittleEndianByte(input, 7 - i);
    }
  }

  lemma LittleEndianByteBit(w: Word, i: nat, s: nat)
    requires i < 8 && s < 8
    ensures LittleEndian(w)[i][s] == Shr(w, i * 8)[s]
  {
    LittleEndianBit(w, 8 * i + s);
    BitAt(LittleEndian(w), 8 * i + s);
  }

  lemma LittleEndianByte(w: Word, i: nat)
    requires i < 8
    ensures LittleEndian(w)[i] == Shr(w, i * 8)[..8]
  {
    forall s | 0 <= s < 8 ensures LittleEndian(w)[i][s] == Shr(w, i * 8)[s] { LittleEndianByteBit(w, i, s); }
  }

  lemma WordOfBytes(w: Word)
    ensures WordOf(BytesOf(w)) == w
  {
    ReverseTwice(LittleEndian(w));
    forall k | 0 <= k < 64 ensures WordOf(BytesOf(w))[k] == w[k] { LittleEndianBit(w, k); }
  }

  /** The function of a block and two key halves that is PRINCE with these settings. */
  ghost predicate IsCipher(cipher: (Word, Word, Word) -> Word, decrypt: bool, n: nat, oldKeySchedule: bool)
    requires n < CONSTANTS
  {
    forall x, k0, k1 {:trigger Crypt(x, k0, k1, decrypt, n, oldKeySchedule)} ::
      cipher(x, k0, k1) == Crypt(x, k0, k1, decrypt, n, oldKeySchedule)
  }

  /** prince_enc_dec: K0 is in the first eight bytes of the key and K1 in the others. */
  method EncDecBytes(inBytes: Vec, keyBytes: Vec, decrypt: bool, numHalfRounds: nat, oldKeySchedule: bool,
                     ghost cipher: (Word, Word, Word) -> Word)
    returns (outBytes: Vec)
    requires |inBytes| == 8 && |keyBytes| == 16
    requires numHalfRounds < CONSTANTS && IsCipher(cipher, decrypt, numHalfRounds, oldKeySchedule)
    ensures outBytes == BytesOf(cipher(WordOf(inBytes), WordOf(keyBytes[..8]), WordOf(keyBytes[8..])))
  {
    var input := BytesToUint64(inBytes);
    var encK0 := BytesToUint64(keyBytes[..8]);
    var encK1 := BytesToUint64(keyBytes[8..]);
    var output := EncDec(input, encK0, encK1, decrypt, numHalfRounds, oldKeySchedule);
    outBytes := Uint64ToBytes(output);
  }
}
