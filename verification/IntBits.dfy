/** Integers as vectors of bits and bytes: the conversions of scrambled_ecc32_mem_area.cc. */
module IntBits {
  import opened Bits
  import opened ByteVectors

  function Pow2(n: nat): (r: nat)
    ensures r > 0
  {
    if n == 0 then 1 else 2 * Pow2(n - 1)
  }

  lemma {:induction false} Pow2Monotone(m: nat, n: nat)
    requires m <= n
    ensures Pow2(m) <= Pow2(n)
    decreases n
  {
    if m < n { Pow2Monotone(m, n - 1); }
  }

  lemma Pow2Of32()
    ensures Pow2(32) == 0x1_0000_0000
  {
    assert Pow2(4) == 16 && Pow2(8) == 16 * Pow2(4);
    assert Pow2(12) == 16 * Pow2(8) && Pow2(16) == 16 * Pow2(12);
    assert Pow2(20) == 16 * Pow2(16) && Pow2(24) == 16 * Pow2(20);
    assert Pow2(28) == 16 * Pow2(24) && Pow2(32) == 16 * Pow2(28);
  }

  lemma Pow2Strict(m: nat, n: nat)
    requires m < n
    ensures 2 * Pow2(m) <= Pow2(n)
  {
    Pow2Monotone(m + 1, n);
  }

  /** The low bits of a number. */
  function ToBits(a: nat, width: nat): (x: BitVec)
    ensures |x| == width
  {
    if width == 0 then [] else [a % 2 == 1] + ToBits(a / 2, width - 1)
  }

  function ToInt(x: BitVec): nat {
    if x == [] then 0 else (if x[0] then 1 else 0) + 2 * ToInt(x[1..])
  }

  lemma {:induction false} ToIntBelow(x: BitVec)
    ensures ToInt(x) < Pow2(|x|)
    decreases |x|
  {
    if x != [] { ToIntBelow(x[1..]); }
  }

  lemma {:induction false} ToBitsOfInt(x: BitVec)
    ensures ToBits(ToInt(x), |x|) == x
    decreases |x|
  {
    if x != [] {
      ToBitsOfInt(x[1..]);
      assert ToInt(x) / 2 == ToInt(x[1..]);
      assert x == [x[0]] + x[1..];
    }
  }

  lemma {:induction false} ToIntOfBits(a: nat, width: nat)
    requires a < Pow2(width)
    ensures ToInt(ToBits(a, width)) == a
    decreases width
  {
    if width > 0 {
      ToIntOfBits(a / 2, width - 1);
      assert ToBits(a, width)[1..] == ToBits(a / 2, width - 1);
    }
  }

  lemma {:induction false} ToIntOfCat(x: BitVec, y: BitVec)
    ensures ToInt(x + y) == ToInt(x) + Pow2(|x|) * ToInt(y)
    decreases |x|
  {
    if x == [] {
      assert x + y == y;
    } else {
      var b, rest := if x[0] then 1 else 0, ToInt(x[1..]);
      var high, p := ToInt(y), Pow2(|x| - 1);
      assert (x + y)[1..] == x[1..] + y;
      ToIntOfCat(x[1..], y);
      assert ToInt(x + y) == b + 2 * (rest + p * high);
      Doubled(b, rest, p, high);
      assert ToInt(x) == b + 2 * rest && Pow2(|x|) == 2 * p;
    }
  }

  lemma Doubled(b: nat, rest: nat, p: nat, a: nat)
    ensures b + 2 * (rest + p * a) == (b + 2 * rest) + (2 * p) * a
  {
  }

  lemma {:induction false} ToIntOfZeros(n: nat)
    ensures ToInt(Zeros(n)) == 0
    decreases n
  {
    if n > 0 {
      assert Zeros(n)[1..] == Zeros(n - 1);
      ToIntOfZeros(n - 1);
    }
  }

  /** Bits past the width of a small number are clear. */
  lemma {:induction false} HighBitsClear(a: nat, width: nat, n: nat)
    requires a < Pow2(width) && width <= n
    ensures ToBits(a, n) == ToBits(a, width) + Zeros(n - width)
    decreases n
  {
    if width == 0 {
      if n > 0 {
        HighBitsClear(0, 0, n - 1);
        assert Zeros(n) == [false] + Zeros(n - 1);
      }
    } else {
      HighBitsClear(a / 2, width - 1, n - 1);
      assert ToBits(a, n) == [a % 2 == 1] + (ToBits(a / 2, width - 1) + Zeros(n - width));
    }
  }

  /** A number halved k times. */
  function Halved(a: nat, k: nat): nat {
    if k == 0 then a else Halved(a / 2, k - 1)
  }

  lemma {:induction false} SplitBits(a: nat, k: nat, m: nat)
    ensures ToBits(a, k + m) == ToBits(a, k) + ToBits(Halved(a, k), m)
    decreases k
  {
    if k > 0 {
      SplitBits(a / 2, k - 1, m);
      assert ToBits(a, k + m) == [a % 2 == 1] + (ToBits(a / 2, k - 1) + ToBits(Halved(a / 2, k - 1), m));
    }
  }

  lemma HalvedFour(a: nat)
    ensures Halved(a, 4) == a / 16
  {
    assert Halved(a, 4) == Halved(a / 2, 3) == Halved(a / 2 / 2, 2);
    assert Halved(a / 2 / 2, 2) == Halved(a / 2 / 2 / 2, 1) == Halved(a / 2 / 2 / 2 / 2, 0);
  }

  lemma HalvedEight(a: nat)
    ensures Halved(a, 8) == a / 256
  {
    HalvedTwice(a, 4, 4);
    HalvedFour(a);
    HalvedFour(a / 16);
    assert a / 16 / 16 == a / 256;
  }

  /** The low byte and the rest. */
  lemma LowByte(a: nat, n: nat)
    requires n >= 8
    ensures ToBits(a, n) == ToBits(a, 8) + ToBits(a / 256, n - 8)
  {
    SplitBits(a, 8, n - 8);
    HalvedEight(a);
  }

  lemma {:induction false} HalvedTwice(a: nat, j: nat, k: nat)
    ensures Halved(a, j + k) == Halved(Halved(a, j), k)
    decreases j
  {
    if j > 0 { HalvedTwice(a / 2, j - 1, k); }
  }

  /** The bytes of an address, enough for its width. */
  function AddrBytes(addr: nat, addrWidth: nat): (v: Vec)
    ensures |v| == NumBytes(addrWidth)
  {
    LittleEndian(ToBits(addr, 8 * NumBytes(addrWidth)))
  }

  /** AddrIntToBytes */
  method AddrIntToBytes(addr: nat, addrWidth: nat) returns (addrBytes: Vec)
    ensures addrBytes == AddrBytes(addr, addrWidth)
  {
    var n := (addrWidth + 7) / 8;
    var left := addr;
    addrBytes := [];
    for i := 0 to n
      invariant |addrBytes| == i
      invariant AddrBytes(addr, addrWidth) == addrBytes + LittleEndian(ToBits(left, 8 * (n - i)))
    {
      FirstByte(left, 8 * (n - i), 8 * (n - i - 1));
      addrBytes := addrBytes + [ToBits(left, 8)];
      left := left / 256;
    }
  }

  lemma FirstByte(a: nat, n: nat, m: nat)
    requires n == m + 8 && m % 8 == 0
    ensures LittleEndian(ToBits(a, n)) == [ToBits(a, 8)] + LittleEndian(ToBits(a / 256, m))
  {
    LowByte(a, n);
    CutFirst(ToBits(a, n), ToBits(a, 8), ToBits(a / 256, m));
    FirstOfBytes(ToBits(a, n), ToBits(a, 8), ToBits(a / 256, m));
  }

  lemma FirstOfBytes(x: BitVec, low: Byte, rest: BitVec)
    requires |x| == 8 + |rest| && x[..8] == low && x[8..] == rest && |rest| % 8 == 0
    ensures |x| % 8 == 0 && LittleEndian(x) == [low] + LittleEndian(rest)
  {
  }

  lemma CutFirst(x: BitVec, low: BitVec, rest: BitVec)
    requires x == low + rest
    ensures x[..|low|] == low && x[|low|..] == rest
  {
  }

  /** The bytes hold the address and nothing past its width. */
  lemma AddrBytesHold(addr: nat, addrWidth: nat)
    requires addr < Pow2(addrWidth)
    ensures Clean(AddrBytes(addr, addrWidth), addrWidth)
    ensures LowBits(AddrBytes(addr, addrWidth), addrWidth) == ToBits(addr, addrWidth)
  {
    var n := 8 * NumBytes(addrWidth);
    var x, v := ToBits(addr, n), AddrBytes(addr, addrWidth);
    HighBitsClear(addr, addrWidth, n);
    forall p: nat ensures Bit(v, p) == (p < addrWidth && ToBits(addr, addrWidth)[p]) {
      if p < n {
        LittleEndianBit(x, p);
      } else {
        NoBitPastEnd(v, p);
      }
    }
  }

  /** AddrBytesToInt. The bytes do not overlap in the result, so or is addition. */
  method AddrBytesToInt(addr: Vec) returns (addrOut: nat)
    ensures addrOut == ToInt(LowBits(addr, 8 * |addr|))
  {
    addrOut := 0;
    for i := 0 to |addr|
      invariant addrOut == ToInt(LowBits(addr, 8 * i))
    {
      forall p | 0 <= p < 8 ensures addr[i][p] == Bit(addr, 8 * i + p) {
        BitAt(addr, 8 * i + p);
      }
      assert LowBits(addr, 8 * (i + 1)) == LowBits(addr, 8 * i) + addr[i];
      ToIntOfCat(LowBits(addr, 8 * i), addr[i]);
      addrOut := addrOut + Pow2(8 * i) * ToInt(addr[i]);
    }
  }

  /** The integer of clean bytes is that of their bits within the width. */
  lemma CleanToInt(v: Vec, width: nat)
    requires Clean(v, width)
    ensures ToInt(LowBits(v, 8 * |v|)) == ToInt(LowBits(v, width))
  {
    var n := 8 * |v|;
    assert LowBits(v, n) == LowBits(v, width) + Zeros(n - width);
    ToIntOfCat(LowBits(v, width), Zeros(n - width));
    ToIntOfZeros(n - width);
  }

  /** How often a number can be halved before nothing is left. */
  function Halvings(n: nat): nat {
    if n == 0 then 0 else 1 + Halvings(n / 2)
  }

  lemma {:induction false} HalvingsBound(n: nat)
    ensures n < Pow2(Halvings(n)) && (n > 0 ==> Pow2(Halvings(n) - 1) <= n)
    decreases n
  {
    if n > 0 { HalvingsBound(n / 2); }
  }

  /** vbits: the number of bits that address size items, and at least one. */
  method VBits(size: nat) returns (width: nat)
    requires size > 0
    ensures IsVBits(size, width)
  {
    if size == 1 {
      return 1;
    }
    var left: nat := size - 1;
    width := 0;
    while left > 0
      invariant width + Halvings(left) == Halvings(size - 1)
    {
      width := width + 1;
      left := left / 2;
    }
    HalvingsBound(size - 1);
  }

  predicate IsVBits(size: nat, width: nat) {
    width >= 1 && size <= Pow2(width) && (width > 1 ==> Pow2(width - 1) < size)
  }

  /** A power of two other than one needs as many bits as its exponent. */
  lemma VBitsOfPower(k: nat, width: nat)
    requires k >= 1 && IsVBits(Pow2(k), width)
    ensures width == k
  {
    if width < k { Pow2Strict(width, k); }
    if k < width { Pow2Monotone(k, width - 1); }
  }
}
