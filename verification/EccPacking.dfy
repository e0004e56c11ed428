/** ecc32_mem_area.cc: 39-bit words, 32 bits of data and 7 check bits, packed into bytes. */
module EccPacking {
  import opened Bits
  import opened ByteVectors
  import opened Secded

  const CHECK_BITS := 7
  const WORD_BITS := 39

  type Data = d: BitVec | |d| == 32 witness Zeros(32)

  /** A word and whether its integrity bits are valid. */
  datatype EccWord = EccWord(valid: bool, data: Data)

  function Complement(x: BitVec): (r: BitVec)
    ensures |r| == |x|
  {
    seq(|x|, i requires 0 <= i < |x| => !x[i])
  }

  type Word39 = x: BitVec | |x| == 39 witness Zeros(39)

  /** The physical bits of a word: its data and the check bits, all complemented if invalid. */
  function Physical(w: EccWord): Word39 {
    var check := Check39(w.data, true);
    w.data + if w.valid then check else Complement(check)
  }

  /** The word that 39 physical bits stand for. */
  function Logical(x: Word39): EccWord {
    EccWord(x[32..] == Check39(x[..32], true), x[..32])
  }

  /** A word reads back as it was written; one written invalid never reads valid. */
  lemma LogicalPhysical(w: EccWord)
    ensures Logical(Physical(w)) == w
  {
    var check := Check39(w.data, true);
    var x := Physical(w);
    assert x[..32] == w.data;
    assert x[32..] == if w.valid then check else Complement(check);
    assert Complement(check)[0] != check[0];
  }

  /** Words one after the other. */
  function Flat(xs: seq<Word39>): (x: BitVec)
    ensures |x| == WORD_BITS * |xs|
  {
    if xs == [] then [] else Flat(xs[..|xs| - 1]) + xs[|xs| - 1]
  }

  function Slice(x: BitVec, i: nat): Word39
    requires WORD_BITS * (i + 1) <= |x|
  {
    x[39 * i..39 * i + 39]
  }

  /** Word i lies at bit offset 39 i. */
  lemma {:induction false} FlatAt(xs: seq<Word39>, i: nat)
    requires i < |xs|
    ensures Slice(Flat(xs), i) == xs[i]
    decreases |xs|
  {
    var before := xs[..|xs| - 1];
    if i < |before| {
      FlatAt(before, i);
      assert Slice(Flat(xs), i) == Slice(Flat(before), i);
    }
  }

  function PhysicalAll(ws: seq<EccWord>): (xs: seq<Word39>)
    ensures |xs| == |ws|
  {
    seq(|ws|, i requires 0 <= i < |ws| => Physical(ws[i]))
  }

  function Packed(ws: seq<EccWord>): (x: BitVec)
    ensures |x| == WORD_BITS * |ws|
  {
    Flat(PhysicalAll(ws))
  }

  /** The first n words of a vector of physical bits. */
  function Unpacked(x: BitVec, n: nat): (ws: seq<EccWord>)
    requires WORD_BITS * n <= |x|
    ensures |ws| == n
  {
    seq(n, i requires 0 <= i < n => Logical(Slice(x, i)))
  }

  /** Packing any number of words and unpacking them is the identity, data and validity alike. */
  lemma UnpackedPacked(ws: seq<EccWord>)
    ensures Unpacked(Packed(ws), |ws|) == ws
  {
    forall i | 0 <= i < |ws| ensures Unpacked(Packed(ws), |ws|)[i] == ws[i] {
      FlatAt(PhysicalAll(ws), i);
      LogicalPhysical(ws[i]);
    }
  }

  // ---------------------------------------------------------------- bits in a buffer

  predicate BitIn(buf: array<Byte>, p: nat)
    reads buf
  {
    Bit(buf[..], p)
  }

  /** Or the bits of a byte into one byte of the buffer. */
  method OrInto(buf: array<Byte>, k: nat, b: Byte)
    requires k < buf.Length
    modifies buf
    ensures forall p: nat :: BitIn(buf, p) == (old(BitIn(buf, p)) || (8 * k <= p < 8 * k + 8 && b[p - 8 * k]))
  {
    ghost var before := buf[..];
    buf[k] := Or(buf[k], b);
    assert buf[..] == before[k := Or(before[k], b)];
    forall p: nat
      ensures BitIn(buf, p) == (Bit(before, p) || (8 * k <= p < 8 * k + 8 && b[p - 8 * k]))
    {
      OrByteBits(before, k, b, p);
    }
  }

  /** insert_bits: the low bits of newBits, from a bit offset on, over at most two bytes. */
  method InsertBits(buf: array<Byte>, bitIdx: nat, newBits: Byte, count: nat)
    requires count <= 8 && bitIdx + count <= 8 * buf.Length
    modifies buf
    ensures forall p: nat :: BitIn(buf, p) ==
              (old(BitIn(buf, p)) || (bitIdx <= p < bitIdx + count && newBits[p - bitIdx]))
  {
    var k, idx, left, bits: Byte := bitIdx / 8, bitIdx % 8, count, newBits;
    while left > 0
      invariant 0 <= left <= count && 0 <= idx < 8 && (left > 0 ==> 8 * k + idx == bitIdx + (count - left))
      invariant bits == Shr(newBits, count - left)
      invariant forall p: nat :: BitIn(buf, p) ==
                  (old(BitIn(buf, p)) || (bitIdx <= p < bitIdx + (count - left) && newBits[p - bitIdx]))
    {
      var spaceAvail := 8 - idx;
      var toTake := if spaceAvail < left then spaceAvail else left;
      var shifted: Byte := Shl(bits[..toTake], idx, 8);
      OrInto(buf, k, shifted);
      k, idx, left := k + 1, 0, left - toTake;
      bits := Shr(bits, toTake);
    }
  }

  lemma SliceBits(buf: Vec, k: nat, idx: nat, n: nat)
    requires k < |buf| && idx + n <= 8
    ensures var bits := buf[k][idx..idx + n]; forall j | 0 <= j < n :: bits[j] == Bit(buf, 8 * k + idx + j)
  {
    var bits := buf[k][idx..idx + n];
    forall j | 0 <= j < n ensures bits[j] == Bit(buf, 8 * k + idx + j) {
      BitAt(buf, 8 * k + idx + j);
    }
  }

  /** extract_bits */
  method ExtractBits(buf: Vec, bitIdx: nat, count: nat) returns (ret: Byte)
    requires count <= 8 && bitIdx + count <= 8 * |buf|
    ensures forall k | 0 <= k < 8 :: ret[k] == (k < count && Bit(buf, bitIdx + k))
  {
    ret := Zeros(8);
    var k, idx, left, outIdx := bitIdx / 8, bitIdx % 8, count, 0;
    while left > 0
      invariant 0 <= outIdx && 0 <= left && outIdx + left == count
      invariant 0 <= idx < 8 && (left > 0 ==> 8 * k + idx == bitIdx + outIdx)
      invariant forall j | 0 <= j < 8 :: ret[j] == (j < outIdx && Bit(buf, bitIdx + j))
    {
      var bitsAvail := 8 - idx;
      var toTake := if bitsAvail < left then bitsAvail else left;
      var masked := buf[k][idx..idx + toTake];
      SliceBits(buf, k, idx, toTake);
      assert forall j | 0 <= j < toTake :: masked[j] == Bit(buf, bitIdx + outIdx + j);
      ret := Or(ret, Shl(masked, outIdx, 8));
      k, idx, left, outIdx := k + 1, 0, left - toTake, outIdx + toTake;
    }
  }

  // ---------------------------------------------------------------- words in a buffer

  /** The word of four bytes, least significant first. */
  function DataAt(v: Vec, at: nat): Data
    requires at + 4 <= |v|
  {
    var low: BitVec := v[at];
    low + v[at + 1] + v[at + 2] + v[at + 3]
  }

  lemma ByteOfWord(bytes: Vec, checkBits: BitVec, i: nat)
    requires |bytes| == 4 && i < 4
    ensures forall j | 0 <= j < 8 :: bytes[i][j] == (DataAt(bytes, 0) + checkBits)[8 * i + j]
  {
  }

  /** insert_word: four bytes and seven check bits. */
  method InsertWord(buf: array<Byte>, bitIdx: nat, bytes: Vec, checkBits: BitVec)
    requires |bytes| == 4 && |checkBits| == CHECK_BITS && bitIdx + WORD_BITS <= 8 * buf.Length
    modifies buf
    ensures forall p: nat :: BitIn(buf, p) ==
              (old(BitIn(buf, p)) || (bitIdx <= p < bitIdx + WORD_BITS && (DataAt(bytes, 0) + checkBits)[p - bitIdx]))
  {
    ghost var w := DataAt(bytes, 0) + checkBits;
    for i := 0 to 4
      invariant forall p: nat :: BitIn(buf, p) ==
                  (old(BitIn(buf, p)) || (bitIdx <= p < bitIdx + 8 * i && w[p - bitIdx]))
    {
      InsertByte(buf, bitIdx, bytes, checkBits, i);
    }
    InsertBits(buf, bitIdx + 32, checkBits + [false], CHECK_BITS);
  }

  /** One turn of the loop. */
  method InsertByte(buf: array<Byte>, bitIdx: nat, bytes: Vec, ghost checkBits: BitVec, i: nat)
    requires |bytes| == 4 && |checkBits| == CHECK_BITS && bitIdx + WORD_BITS <= 8 * buf.Length && i < 4
    modifies buf
    ensures forall p: nat :: BitIn(buf, p) ==
              (old(BitIn(buf, p)) ||
               (bitIdx + 8 * i <= p < bitIdx + 8 * i + 8 && (DataAt(bytes, 0) + checkBits)[p - bitIdx]))
  {
    ByteOfWord(bytes, checkBits, i);
    InsertBits(buf, bitIdx + 8 * i, bytes[i], 8);
  }

  function PhysicalBytes(n: nat): nat {
    (39 * n + 7) / 8
  }

  /** zero_buffer: clear the bytes that n words take. */
  method ZeroBuffer(buf: array<Byte>, n: nat)
    requires PhysicalBytes(n) <= buf.Length
    modifies buf
    ensures forall p: nat :: BitIn(buf, p) == (p >= 8 * PhysicalBytes(n) && old(BitIn(buf, p)))
  {
    ghost var before := buf[..];
    var bytes := (39 * n + 7) / 8;
    for k := 0 to bytes
      invariant forall j | 0 <= j < buf.Length :: buf[j] == if j < k then Zeros(8) else before[j]
    {
      buf[k] := Zeros(8);
    }
    forall p: nat ensures BitIn(buf, p) == (p >= 8 * bytes && Bit(before, p)) {
      if p < 8 * buf.Length {
        BitAt(buf[..], p);
        BitAt(before, p);
      } else {
        NoBitPastEnd(buf[..], p);
        NoBitPastEnd(before, p);
      }
    }
  }

  /** The first i of the words are in the buffer, and nothing else in the bytes they take. */
  ghost predicate Filled(buf: array<Byte>, x: BitVec, i: nat, n: nat)
    requires WORD_BITS * i <= |x|
    reads buf
  {
    forall p: nat | p < 8 * PhysicalBytes(n) :: BitIn(buf, p) == (p < WORD_BITS * i && x[p])
  }

  /** One more word. */
  method PutWord(buf: array<Byte>, i: nat, n: nat, bytes: Vec, checkBits: BitVec, ghost xs: seq<Word39>)
    requires i < n == |xs| && PhysicalBytes(n) <= buf.Length && Filled(buf, Flat(xs), i, n)
    requires |bytes| == 4 && |checkBits| == CHECK_BITS && DataAt(bytes, 0) + checkBits == xs[i]
    modifies buf
    ensures Filled(buf, Flat(xs), i + 1, n)
    ensures forall p: nat | p >= 8 * PhysicalBytes(n) :: BitIn(buf, p) == old(BitIn(buf, p))
  {
    InsertWord(buf, 39 * i, bytes, checkBits);
    ghost var x := Flat(xs);
    FlatAt(xs, i);
    assert forall p | 39 * i <= p < 39 * i + 39 :: x[p] == Slice(x, i)[p - 39 * i];
  }

  /** The words of a vector of bytes, all valid. */
  function ValidWords(data: Vec, start: nat, n: nat): (ws: seq<EccWord>)
    requires start + 4 * n <= |data|
    ensures |ws| == n
  {
    seq(n, i requires 0 <= i < n => EccWord(true, DataAt(data, start + 4 * i)))
  }

  lemma ValidWordAt(data: Vec, start: nat, n: nat, i: nat)
    requires start + 4 * n <= |data| && i < n
    ensures var d := DataAt(data[start + 4 * i..start + 4 * i + 4], 0);
            PhysicalAll(ValidWords(data, start, n))[i] == d + Check39(d, true)
  {
    assert DataAt(data[start + 4 * i..start + 4 * i + 4], 0) == DataAt(data, start + 4 * i);
  }

  /** Ecc32MemArea::WriteBuffer. As in the source, the data must hold all n words from start on. */
  method WriteBuffer(buf: array<Byte>, data: Vec, startIdx: nat, n: nat)
    requires PhysicalBytes(n) <= buf.Length && startIdx + 4 * n <= |data|
    modifies buf
    ensures Filled(buf, Packed(ValidWords(data, startIdx, n)), n, n)
    ensures forall p: nat | p >= 8 * PhysicalBytes(n) :: BitIn(buf, p) == old(BitIn(buf, p))
  {
    ghost var xs := PhysicalAll(ValidWords(data, startIdx, n));
    ZeroBuffer(buf, n);
    for i := 0 to n
      invariant Filled(buf, Flat(xs), i, n)
      invariant forall p: nat | p >= 8 * PhysicalBytes(n) :: BitIn(buf, p) == old(BitIn(buf, p))
    {
      var srcData := data[startIdx + 4 * i..startIdx + 4 * i + 4];
      var check := EncSecded39(DataAt(srcData, 0), true);
      ValidWordAt(data, startIdx, n, i);
      PutWord(buf, i, n, srcData, check, xs);
    }
  }

  /** Ecc32MemArea::WriteBufferWithIntegrity */
  method WriteBufferWithIntegrity(buf: array<Byte>, data: seq<EccWord>, startIdx: nat, n: nat)
    requires PhysicalBytes(n) <= buf.Length && startIdx + n <= |data|
    modifies buf
    ensures Filled(buf, Packed(data[startIdx..startIdx + n]), n, n)
    ensures forall p: nat | p >= 8 * PhysicalBytes(n) :: BitIn(buf, p) == old(BitIn(buf, p))
  {
    ghost var ws := data[startIdx..startIdx + n];
    ghost var xs := PhysicalAll(ws);
    ZeroBuffer(buf, n);
    for i := 0 to n
      invariant Filled(buf, Flat(xs), i, n)
      invariant forall p: nat | p >= 8 * PhysicalBytes(n) :: BitIn(buf, p) == old(BitIn(buf, p))
    {
      var word := data[startIdx + i];
      var srcData := LittleEndian(word.data);
      DataOfBytes(word.data);
      var check := EncSecded39(word.data, true);
      if !word.valid {
        check := Complement(check);
      }
      assert word.data + check == Physical(ws[i]);
      PutWord(buf, i, n, srcData, check, xs);
    }
  }

  lemma DataOfBytes(d: Data)
    ensures |LittleEndian(d)| == 4 && DataAt(LittleEndian(d), 0) == d
  {
    var e, f, g := d[8..], d[16..], d[24..];
    assert e[8..] == f && f[8..] == g;
    assert LittleEndian(g) == [g[..8]] + LittleEndian(g[8..]);
    assert LittleEndian(f) == [f[..8]] + LittleEndian(g);
    assert LittleEndian(e) == [e[..8]] + LittleEndian(f);
    assert LittleEndian(d) == [d[..8]] + LittleEndian(e);
    assert d == d[..8] + e[..8] + f[..8] + g[..8];
  }

  /** The four data bytes of word i of a buffer. */
  method ExtractData(buf: Vec, i: nat) returns (buf32: Vec)
    requires WORD_BITS * (i + 1) <= 8 * |buf|
    ensures |buf32| == 4 && DataAt(buf32, 0) == Slice(LowBits(buf, 8 * |buf|), i)[..32]
  {
    ghost var x := Slice(LowBits(buf, 8 * |buf|), i);
    buf32 := [];
    for j := 0 to 4
      invariant |buf32| == j && forall m | 0 <= m < j :: buf32[m] == x[8 * m..8 * m + 8]
    {
      var byte := ExtractBits(buf, 39 * i + 8 * j, 8);
      forall m | 0 <= m < 8 ensures byte[m] == x[8 * j..8 * j + 8][m] {
        assert x[8 * j + m] == LowBits(buf, 8 * |buf|)[39 * i + (8 * j + m)];
      }
      buf32 := buf32 + [byte];
    }
    assert x[..32] == x[..8] + x[8..16] + x[16..24] + x[24..32];
  }

  /** The logical words in a buffer. */
  function WordsIn(buf: Vec, n: nat): (ws: seq<EccWord>)
    requires WORD_BITS * n <= 8 * |buf|
    ensures |ws| == n
  {
    Unpacked(LowBits(buf, 8 * |buf|), n)
  }

  /** The data bytes of some words. */
  function DataBytes(ws: seq<EccWord>): (v: Vec)
    ensures |v| == 4 * |ws|
  {
    if ws == [] then [] else DataBytes(ws[..|ws| - 1]) + LittleEndian(ws[|ws| - 1].data)
  }

  lemma BytesOfData(v: Vec)
    requires |v| == 4
    ensures v == LittleEndian(DataAt(v, 0))
  {
    var d := DataAt(v, 0);
    DataOfBytes(d);
    var u := LittleEndian(d);
    forall k | 0 <= k < 4 ensures v[k] == u[k] {
      assert d[8 * k..8 * k + 8] == v[k];
      assert DataAt(u, 0)[8 * k..8 * k + 8] == u[k];
    }
  }

  lemma OneMoreWord(ws: seq<EccWord>, i: nat)
    requires i < |ws|
    ensures DataBytes(ws[..i + 1]) == DataBytes(ws[..i]) + LittleEndian(ws[i].data)
  {
    assert ws[..i + 1][..i] == ws[..i] && ws[..i + 1][i] == ws[i];
  }

  /** The data of word i of a buffer, as bytes. */
  lemma BytesOfWord(buf: Vec, n: nat, i: nat, buf32: Vec)
    requires i < n && WORD_BITS * n <= 8 * |buf| && |buf32| == 4
    requires DataAt(buf32, 0) == Slice(LowBits(buf, 8 * |buf|), i)[..32]
    ensures buf32 == LittleEndian(WordsIn(buf, n)[i].data)
  {
    BytesOfData(buf32);
  }

  /** The data of the first i words of a buffer, after some other data. */
  predicate IsReadUpTo(r: Vec, data: Vec, buf: Vec, n: nat, i: nat)
    requires i <= n && WORD_BITS * n <= 8 * |buf|
  {
    r == data + DataBytes(WordsIn(buf, n)[..i])
  }

  /** One turn of the loop. */
  method AppendData(r: Vec, ghost data: Vec, buf: Vec, n: nat, i: nat) returns (s: Vec)
    requires i < n && WORD_BITS * n <= 8 * |buf| && IsReadUpTo(r, data, buf, n, i)
    ensures IsReadUpTo(s, data, buf, n, i + 1)
  {
    var buf32 := ExtractData(buf, i);
    BytesOfWord(buf, n, i, buf32);
    ReadOneMore(data, WordsIn(buf, n), i);
    s := r + buf32;
  }

  lemma ReadOneMore(data: Vec, ws: seq<EccWord>, i: nat)
    requires i < |ws|
    ensures data + DataBytes(ws[..i + 1]) == data + DataBytes(ws[..i]) + LittleEndian(ws[i].data)
  {
    OneMoreWord(ws, i);
  }

  /** Ecc32MemArea::ReadBuffer */
  method ReadBuffer(data: Vec, buf: Vec, n: nat) returns (r: Vec)
    requires WORD_BITS * n <= 8 * |buf|
    ensures r == data + DataBytes(WordsIn(buf, n))
  {
    r := data;
    for i := 0 to n
      invariant IsReadUpTo(r, data, buf, n, i)
    {
      r := AppendData(r, data, buf, n, i);
    }
    assert WordsIn(buf, n)[..n] == WordsIn(buf, n);
  }

  /** Ecc32MemArea::ReadBufferWithIntegrity */
  method ReadBufferWithIntegrity(data: seq<EccWord>, buf: Vec, n: nat) returns (r: seq<EccWord>)
    requires WORD_BITS * n <= 8 * |buf|
    ensures r == data + WordsIn(buf, n)
  {
    r := data;
    for i := 0 to n
      invariant r == data + WordsIn(buf, n)[..i]
    {
      var buf32 := ExtractData(buf, i);
      var w32 := DataAt(buf32, 0);
      var expCheckBits := EncSecded39(w32, true);
      var checkBits := ExtractBits(buf, 39 * i + 32, CHECK_BITS);
      var good := checkBits[..7] == expCheckBits;
      forall m | 0 <= m < 7 ensures checkBits[m] == Slice(LowBits(buf, 8 * |buf|), i)[32 + m] {
        assert Slice(LowBits(buf, 8 * |buf|), i)[32 + m] == LowBits(buf, 8 * |buf|)[39 * i + (32 + m)];
      }
      assert checkBits[..7] == Slice(LowBits(buf, 8 * |buf|), i)[32..];
      r := r + [EccWord(good, w32)];
    }
  }
}
