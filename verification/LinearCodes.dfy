/** Linear codes that correct one error and detect two: what is true of any parity-check matrix
    whose columns are distinct and of odd weight. */
module LinearCodes {
  import opened Bits

  /** A parity-check matrix: entry (k, i) for check k and bit i of a word. */
  type Matrix = (nat, nat) -> bool

  predicate Parity(x: BitVec) {
    x != [] && x[0] != Parity(x[1..])
  }

  lemma {:induction false} ParityOfZeros(n: nat)
    ensures !Parity(Zeros(n))
  {
    if n > 0 {
      assert Zeros(n)[1..] == Zeros(n - 1);
      ParityOfZeros(n - 1);
    }
  }

  lemma {:induction false} ParityXor(x: BitVec, y: BitVec)
    requires |x| == |y|
    ensures Parity(Xor(x, y)) == (Parity(x) != Parity(y))
    decreases |x|
  {
    if x != [] {
      assert Xor(x, y)[1..] == Xor(x[1..], y[1..]);
      ParityXor(x[1..], y[1..]);
    }
  }

  lemma {:induction false} ParityOfCat(x: BitVec, y: BitVec)
    ensures Parity(x + y) == (Parity(x) != Parity(y))
    decreases |x|
  {
    if x == [] {
      assert x + y == y;
    } else {
      assert (x + y)[1..] == x[1..] + y;
      ParityOfCat(x[1..], y);
    }
  }

  /** calc_parity: until no bit is left. */
  method CalcParity(word: BitVec, invert: bool) returns (r: bool)
    ensures r == (Parity(word) != invert)
  {
    var w, parity := word, false;
    ghost var n: nat := |word|;
    ParityOfZeros(|word|);
    while w != Zeros(|word|)
      invariant |w| == |word| && 0 <= n <= |word| && forall i | n <= i < |w| :: !w[i]
      invariant parity == (Parity(word) != Parity(w))
      decreases n
    {
      SomeBitLeft(w, n);
      if w[0] {
        parity := !parity;
      }
      ShiftedParity(w);
      w := Shr(w, 1);
      n := n - 1;
    }
    r := parity != invert;
  }

  lemma SomeBitLeft(w: BitVec, n: nat)
    requires w != Zeros(|w|) && forall i | n <= i < |w| :: !w[i]
    ensures n > 0
  {
    if n == 0 {
      AllClear(w);
      assert false;
    }
  }

  lemma AllClear(w: BitVec)
    requires forall i | 0 <= i < |w| :: !w[i]
    ensures w == Zeros(|w|)
  {
  }

  lemma ShiftedParity(w: BitVec)
    requires w != []
    ensures Parity(w) == (w[0] != Parity(Shr(w, 1)))
  {
    assert Shr(w, 1) == w[1..] + [false];
    ParityOfCat(w[1..], [false]);
  }

  // ---------------------------------------------------------------- syndromes

  function Row(h: Matrix, k: nat, n: nat): (r: BitVec)
    ensures |r| == n
  {
    seq(n, i requires 0 <= i < n => h(k, i))
  }

  function Masked(x: BitVec, mask: BitVec): (r: BitVec)
    ensures |r| == |x|
  {
    seq(|x|, i requires 0 <= i < |x| => x[i] && i < |mask| && mask[i])
  }

  /** Check k of a word: the parity of the bits that row k selects. */
  predicate Check(h: Matrix, k: nat, x: BitVec) {
    Parity(Masked(x, Row(h, k, |x|)))
  }

  function Syndrome(h: Matrix, rows: nat, x: BitVec): (s: BitVec)
    ensures |s| == rows
  {
    seq(rows, k requires 0 <= k < rows => Check(h, k, x))
  }

  function Column(h: Matrix, rows: nat, i: nat): (c: BitVec)
    ensures |c| == rows
  {
    seq(rows, k requires 0 <= k < rows => h(k, i))
  }

  function Unit(n: nat, i: nat): (e: BitVec)
    ensures |e| == n
  {
    seq(n, j => j == i)
  }

  /** Flip bit i. */
  function Flipped(x: BitVec, i: nat): (r: BitVec)
    requires i < |x|
    ensures |r| == |x|
  {
    x[i := !x[i]]
  }

  lemma {:induction false} ParityOfUnit(n: nat, i: nat)
    ensures Parity(Unit(n, i)) == (i < n)
    decreases n
  {
    if n > 0 {
      if i == 0 {
        assert Unit(n, i)[1..] == Zeros(n - 1);
        ParityOfZeros(n - 1);
      } else {
        assert Unit(n, i)[1..] == Unit(n - 1, i - 1);
        ParityOfUnit(n - 1, i - 1);
      }
    }
  }

  /** Flipping bit i flips check k exactly when the matrix selects it. */
  lemma CheckOfFlip(h: Matrix, k: nat, x: BitVec, i: nat)
    requires i < |x|
    ensures Check(h, k, Flipped(x, i)) == (Check(h, k, x) != h(k, i))
  {
    var row := Row(h, k, |x|);
    if h(k, i) {
      assert Masked(Flipped(x, i), row) == Xor(Masked(x, row), Unit(|x|, i));
      ParityXor(Masked(x, row), Unit(|x|, i));
      ParityOfUnit(|x|, i);
    } else {
      assert Masked(Flipped(x, i), row) == Masked(x, row);
    }
  }

  /** The syndrome is linear: a flip adds the column of the bit. */
  lemma SyndromeOfFlip(h: Matrix, rows: nat, x: BitVec, i: nat)
    requires i < |x|
    ensures Syndrome(h, rows, Flipped(x, i)) == Xor(Syndrome(h, rows, x), Column(h, rows, i))
  {
    var s, t := Syndrome(h, rows, Flipped(x, i)), Xor(Syndrome(h, rows, x), Column(h, rows, i));
    forall k | 0 <= k < rows ensures s[k] == t[k] {
      CheckOfFlip(h, k, x, i);
    }
  }

  // ---------------------------------------------------------------- decoding

  datatype Decoded = Decoded(data: BitVec, single: bool, double: bool)

  /** Correct the data bit whose column is the syndrome; odd syndromes are single errors and even
      ones other than zero double errors. */
  function Decode(h: Matrix, rows: nat, dataWidth: nat, x: BitVec): Decoded
    requires dataWidth <= |x|
  {
    var s := Syndrome(h, rows, x);
    var single := Parity(s);
    Decoded(seq(dataWidth, i requires 0 <= i < dataWidth => (s == Column(h, rows, i)) != x[i]),
            single, !single && s != Zeros(rows))
  }

  /** The columns of the first n bits are of odd weight and distinct. */
  ghost predicate CorrectsOne(h: Matrix, rows: nat, n: nat) {
    && (forall i | 0 <= i < n :: Parity(Column(h, rows, i)))
    && (forall i, j | 0 <= i < j < n :: Column(h, rows, i) != Column(h, rows, j))
  }

  /** Check bit k of the code is the bit after the data that only check k selects. */
  ghost predicate Systematic(h: Matrix, rows: nat, dataWidth: nat) {
    forall k: nat, j: nat | k < rows && dataWidth <= j :: h(k, j) == (j == dataWidth + k)
  }

  function CheckBits(h: Matrix, rows: nat, data: BitVec): (c: BitVec)
    ensures |c| == rows
  {
    Syndrome(h, rows, data)
  }

  /** A word whose check bits are right, and only such a word, has syndrome zero. */
  lemma ZeroSyndrome(h: Matrix, rows: nat, data: BitVec, check: BitVec)
    requires |check| == rows && Systematic(h, rows, |data|)
    ensures Syndrome(h, rows, data + check) == Xor(CheckBits(h, rows, data), check)
    ensures Syndrome(h, rows, data + check) == Zeros(rows) <==> check == CheckBits(h, rows, data)
  {
    var x := data + check;
    forall k | 0 <= k < rows ensures Check(h, k, x) == (Check(h, k, data) != check[k]) {
      CheckSplits(h, rows, k, data, check);
    }
    var s := Syndrome(h, rows, x);
    assert s == Xor(CheckBits(h, rows, data), check);
    if s == Zeros(rows) {
      forall k | 0 <= k < rows ensures check[k] == CheckBits(h, rows, data)[k] {
        assert !s[k];
      }
    }
  }

  lemma CheckSplits(h: Matrix, rows: nat, k: nat, data: BitVec, check: BitVec)
    requires |check| == rows && Systematic(h, rows, |data|) && k < rows
    ensures Check(h, k, data + check) == (Check(h, k, data) != check[k])
  {
    var n := |data|;
    var only := seq(rows, j requires 0 <= j < rows => j == k && check[k]);
    assert Masked(data + check, Row(h, k, n + rows)) == Masked(data, Row(h, k, n)) + only;
    ParityOfCat(Masked(data, Row(h, k, n)), only);
    if check[k] {
      assert only == Unit(rows, k);
      ParityOfUnit(rows, k);
    } else {
      assert only == Zeros(rows);
      ParityOfZeros(rows);
    }
  }

  /** A codeword decodes to its data without error, and only a codeword decodes without error. */
  lemma CleanDecodes(h: Matrix, rows: nat, data: BitVec, check: BitVec)
    requires |check| == rows && Systematic(h, rows, |data|) && CorrectsOne(h, rows, |data|)
    ensures var d := Decode(h, rows, |data|, data + check);
            && (!d.single && !d.double <==> check == CheckBits(h, rows, data))
            && (!d.single && !d.double ==> d.data == data)
  {
    ZeroSyndrome(h, rows, data, check);
    ParityOfZeros(rows);
    var s := Syndrome(h, rows, data + check);
    if s == Zeros(rows) {
      forall i | 0 <= i < |data| ensures s != Column(h, rows, i) {
        assert Parity(Column(h, rows, i));
      }
    }
  }

  /** Any one flipped bit of a codeword is corrected and reported as a single error. */
  lemma SingleCorrected(h: Matrix, rows: nat, data: BitVec, i: nat)
    requires Systematic(h, rows, |data|) && CorrectsOne(h, rows, |data| + rows) && i < |data| + rows
    ensures Decode(h, rows, |data|, Flipped(data + CheckBits(h, rows, data), i)) == Decoded(data, true, false)
  {
    var x := data + CheckBits(h, rows, data);
    var s := Syndrome(h, rows, Flipped(x, i));
    ZeroSyndrome(h, rows, data, CheckBits(h, rows, data));
    SyndromeOfFlip(h, rows, x, i);
    assert s == Column(h, rows, i);
    assert Parity(s);
    var d := Decode(h, rows, |data|, Flipped(x, i));
    forall j | 0 <= j < |data| ensures d.data[j] == data[j] {
      assert s == Column(h, rows, j) <==> i == j by {
        if i < j { assert Column(h, rows, i) != Column(h, rows, j); }
        if j < i { assert Column(h, rows, j) != Column(h, rows, i); }
      }
    }
  }

  /** Any two flipped bits of a codeword are reported as a double error, and nothing is corrected. */
  lemma DoubleDetected(h: Matrix, rows: nat, data: BitVec, i: nat, j: nat)
    requires Systematic(h, rows, |data|) && CorrectsOne(h, rows, |data| + rows)
    requires i < |data| + rows && j < |data| + rows && i != j
    ensures var x := Flipped(Flipped(data + CheckBits(h, rows, data), i), j);
            Decode(h, rows, |data|, x) == Decoded(x[..|data|], false, true)
  {
    var c := data + CheckBits(h, rows, data);
    var x := Flipped(Flipped(c, i), j);
    var a, b := Column(h, rows, i), Column(h, rows, j);
    ZeroSyndrome(h, rows, data, CheckBits(h, rows, data));
    SyndromeOfFlip(h, rows, c, i);
    assert Syndrome(h, rows, Flipped(c, i)) == a;
    SyndromeOfFlip(h, rows, Flipped(c, i), j);
    var s := Syndrome(h, rows, x);
    assert s == Xor(a, b);
    ParityXor(a, b);
    assert Parity(a) && Parity(b) && a != b;
    XorNotZero(a, b);
    forall m | 0 <= m < |data| ensures s != Column(h, rows, m) {
      assert Parity(Column(h, rows, m));
    }
  }

  lemma XorNotZero(a: BitVec, b: BitVec)
    requires |a| == |b| && a != b
    ensures Xor(a, b) != Zeros(|a|)
  {
    if Xor(a, b) == Zeros(|a|) {
      forall k | 0 <= k < |a| ensures a[k] == b[k] { assert !Xor(a, b)[k]; }
      assert false;
    }
  }
}
