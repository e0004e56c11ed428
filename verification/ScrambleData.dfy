/** scramble_model.cc, continued: the keystream, the network over the full data width, and the
    scrambling of addresses and data words. */
module ScrambleData {
  import opened Bits
  import opened ByteVectors
  import opened ScrambleModel
  import SubstPerm
  import Prince

  // ---------------------------------------------------------------- the keystream

  /** The bit of the nonce at place j of the initial vector of PRINCE instance i. */
  function NoncePos(addrWidth: nat, i: nat, j: nat): nat
    requires addrWidth <= j < 64
  {
    var u: nat := 64 - addrWidth;
    (j - addrWidth) + i * u
  }

  /** The initial vector of PRINCE instance i: the address below, bits of the nonce above. */
  function Iv(addr: Vec, addrWidth: nat, nonce: Vec, i: nat): Prince.Word {
    seq(64, j requires 0 <= j < 64 =>
      if j < addrWidth then Bit(addr, j) else Bit(nonce, NoncePos(addrWidth, i, j)))
  }

  /** A block cipher: a function of a block and two key halves. */
  type Cipher = (Prince.Word, Prince.Word, Prince.Word) -> Prince.Word

  /** Block i of the keystream. */
  function Block(cipher: Cipher, addr: Vec, addrWidth: nat, nonce: Vec, key: Vec, i: nat): Prince.Word
    requires |key| == 16
  {
    cipher(Iv(addr, addrWidth, nonce, i), LowBits(key[8..], 64), LowBits(key[..8], 64))
  }

  /** n blocks one after the other. */
  function Stream(f: nat -> Prince.Word, n: nat): (r: BitVec)
    ensures |r| == 64 * n
  {
    if n == 0 then [] else Stream(f, n - 1) + f(n - 1)
  }

  function NumPrinces(width: nat): nat {
    (width + PRINCE_WIDTH - 1) / PRINCE_WIDTH
  }

  /** The keystream: the first bits of distinct blocks, or of one block repeated. */
  function Keystream(cipher: Cipher, addr: Vec, addrWidth: nat, nonce: Vec, key: Vec,
                     repeatKeystream: bool, width: nat): (r: BitVec)
    requires |key| == 16
    ensures |r| == width
  {
    Stream(Blocks(cipher, addr, addrWidth, nonce, key, repeatKeystream), NumPrinces(width))[..width]
  }

  function Blocks(cipher: Cipher, addr: Vec, addrWidth: nat, nonce: Vec, key: Vec,
                  repeatKeystream: bool): nat -> Prince.Word
    requires |key| == 16
  {
    i => Block(cipher, addr, addrWidth, nonce, key, if repeatKeystream then 0 else i)
  }

  /** What the bounds checks of read_vector_bit demand of the address and the nonce. */
  predicate EnoughBits(addr: Vec, addrWidth: nat, nonce: Vec, princes: nat) {
    && |addr| == NumBytes(addrWidth)
    && (addrWidth < 64 ==> princes * (64 - addrWidth) <= 8 * |nonce|)
  }

  lemma NonceBitInRange(j: nat, addrWidth: nat, i: nat, princes: nat, nonceBits: nat)
    requires addrWidth <= j < 64 && i < princes && princes * (64 - addrWidth) <= nonceBits
    ensures (j - addrWidth) + i * (64 - addrWidth) < nonceBits
  {
    NextMultiple(i, princes, 64 - addrWidth);
  }

  lemma NextMultiple(i: nat, n: nat, u: nat)
    requires i < n
    ensures i * u + u <= n * u
  {
    assert (n - i - 1) * u >= 0;
    assert n * u == i * u + u + (n - i - 1) * u;
  }

  /** The loop that fills the initial vector. */
  method FillIv(addr: Vec, addrWidth: nat, nonce: Vec, i: nat, ghost princes: nat) returns (iv: Vec)
    requires EnoughBits(addr, addrWidth, nonce, princes) && i < princes
    ensures |iv| == 8 && LowBits(iv, 64) == Iv(addr, addrWidth, nonce, i)
  {
    iv := ZeroBytes(8);
    ZeroBytesClear(8);
    ghost var y := Iv(addr, addrWidth, nonce, i);
    for j := 0 to PRINCE_WIDTH
      invariant |iv| == 8
      invariant forall p: nat :: Bit(iv, p) == (p < j && y[p])
    {
      if j < addrWidth {
        var bit := ReadVectorBit(addr, j);
        iv := OrVectorBit(iv, j, bit);
      } else {
        NonceBitInRange(j, addrWidth, i, princes, 8 * |nonce|);
        var nonceBit := (j - addrWidth) + i * (PRINCE_WIDTH - addrWidth);
        var bit := ReadVectorBit(nonce, nonceBit);
        iv := OrVectorBit(iv, j, bit);
      }
    }
  }

  /** One block: PRINCE on reversed bytes, reversed again. */
  method KeystreamBlock(iv: Vec, key: Vec, numHalfRounds: nat, ghost cipher: Cipher) returns (block: Vec)
    requires |iv| == 8 && |key| == 16
    requires numHalfRounds < Prince.CONSTANTS && Prince.IsCipher(cipher, false, numHalfRounds, false)
    ensures |block| == 8
    ensures LowBits(block, 64) == cipher(LowBits(iv, 64), LowBits(key[8..], 64), LowBits(key[..8], 64))
  {
    var ivBe := ByteReverse(iv);
    var keyBe := ByteReverse(key);
    block := Prince.EncDecBytes(ivBe, keyBe, false, numHalfRounds, false, cipher);
    ReversedKey(iv, key);
    Prince.WordOfBytes(cipher(LowBits(iv, 64), LowBits(key[8..], 64), LowBits(key[..8], 64)));
    block := ByteReverse(block);
  }

  /** The words that PRINCE reads from reversed bytes. */
  lemma ReversedKey(iv: Vec, key: Vec)
    requires |iv| == 8 && |key| == 16
    ensures Prince.WordOf(ByteReverse(iv)) == LowBits(iv, 64)
    ensures Prince.WordOf(ByteReverse(key)[..8]) == LowBits(key[8..], 64)
    ensures Prince.WordOf(ByteReverse(key)[8..]) == LowBits(key[..8], 64)
  {
    ReverseTwice(iv);
    assert ByteReverse(ByteReverse(key)[..8]) == key[8..];
    assert ByteReverse(ByteReverse(key)[8..]) == key[..8];
  }

  /** Appending a block extends the stream by its bits. */
  lemma StreamGrows(f: nat -> Prince.Word, n: nat, v: Vec, block: Vec)
    requires |v| == 8 * n && |block| == 8
    requires LowBits(v, 64 * n) == Stream(f, n) && LowBits(block, 64) == f(n)
    ensures LowBits(v + block, 64 * (n + 1)) == Stream(f, n + 1)
  {
    var a, b := LowBits(v + block, 64 * (n + 1)), Stream(f, n + 1);
    forall p | 0 <= p < |a| ensures a[p] == b[p] {
      BitOfCat(v, block, p);
      if p < 64 * n {
        assert LowBits(v, 64 * n)[p] == Bit(v, p);
      } else {
        assert LowBits(block, 64)[p - 64 * n] == Bit(block, p - 64 * n);
      }
    }
  }

  /** scramble_gen_keystream */
  method GenKeystream(addr: Vec, addrWidth: nat, nonce: Vec, key: Vec, keystreamWidth: nat,
                      numHalfRounds: nat, repeatKeystream: bool, ghost cipher: Cipher) returns (keystream: Vec)
    requires |key| == 16
    requires numHalfRounds < Prince.CONSTANTS && Prince.IsCipher(cipher, false, numHalfRounds, false)
    requires EnoughBits(addr, addrWidth, nonce, if repeatKeystream then 1 else NumPrinces(keystreamWidth))
    ensures Clean(keystream, keystreamWidth)
    ensures LowBits(keystream, keystreamWidth) ==
            Keystream(cipher, addr, addrWidth, nonce, key, repeatKeystream, keystreamWidth)
  {
    var numPrinces := if repeatKeystream then 1 else NumPrinces(keystreamWidth);
    var numRepetitions := if repeatKeystream then NumPrinces(keystreamWidth) else 1;
    ghost var f := Blocks(cipher, addr, addrWidth, nonce, key, repeatKeystream);
    keystream := [];
    ghost var m := 0;
    for i := 0 to numPrinces
      invariant m == if repeatKeystream && i == 1 then numRepetitions else i
      invariant |keystream| == 8 * m && LowBits(keystream, 64 * m) == Stream(f, m)
    {
      var iv := FillIv(addr, addrWidth, nonce, i, numPrinces);
      var block := KeystreamBlock(iv, key, numHalfRounds, cipher);
      for k := 0 to numRepetitions
        invariant m == i + k
        invariant |keystream| == 8 * m && LowBits(keystream, 64 * m) == Stream(f, m)
      {
        assert f(m) == Block(cipher, addr, addrWidth, nonce, key, i);
        StreamGrows(f, m, keystream, block);
        keystream := keystream + block;
        m := m + 1;
      }
    }
    keystream := Truncate(keystream, keystreamWidth);
  }

  /** Drop the unused bytes and clear the unused bits of the last one. */
  method Truncate(v: Vec, width: nat) returns (r: Vec)
    requires |v| >= NumBytes(width)
    ensures Clean(r, width) && LowBits(r, width) == LowBits(v, width)
  {
    var bytes := (width + 7) / 8;
    r := v[..bytes];
    assert v == v[..bytes] + v[bytes..];
    forall p: nat | p < 8 * bytes ensures Bit(r, p) == Bit(v, p) { BitOfCat(v[..bytes], v[bytes..], p); }
    forall p: nat | p >= 8 * bytes ensures !Bit(r, p) { NoBitPastEnd(r, p); }
    if width % 8 != 0 {
      ghost var before := r;
      r := r[bytes - 1 := seq(8, i requires 0 <= i < 8 => i < width % 8 && r[bytes - 1][i])];
      forall p: nat ensures Bit(r, p) == (p < width && Bit(before, p)) {
        if p < 8 * bytes {
          BitAt(r, p);
          BitAt(before, p);
        } else {
          NoBitPastEnd(r, p);
        }
      }
    }
  }

  // ---------------------------------------------------------------- the full data width

  ghost predicate KeepsLength(f: BitVec -> BitVec) {
    forall z :: |f(z)| == |z|
  }

  /** A function over each chunk of the data, the last one possibly shorter. */
  ghost function Chunked(f: BitVec -> BitVec, x: BitVec, chunk: nat): (y: BitVec)
    requires chunk > 0 && KeepsLength(f)
    ensures |y| == |x|
    decreases |x|
  {
    if |x| <= chunk then f(x) else f(x[..chunk]) + Chunked(f, x[chunk..], chunk)
  }

  lemma {:induction false} ChunkedInverse(f: BitVec -> BitVec, g: BitVec -> BitVec, x: BitVec, chunk: nat)
    requires chunk > 0 && KeepsLength(f) && KeepsLength(g) && forall z :: g(f(z)) == z
    ensures Chunked(g, Chunked(f, x, chunk), chunk) == x
    decreases |x|
  {
    if |x| > chunk {
      var a, b := f(x[..chunk]), Chunked(f, x[chunk..], chunk);
      assert (a + b)[..chunk] == a && (a + b)[chunk..] == b;
      ChunkedInverse(f, g, x[chunk..], chunk);
    }
  }

  function End(off: nat, chunk: nat, width: nat): nat {
    if off + chunk < width then off + chunk else width
  }

  /** If the result from an offset on is that of the data from there on, so it is one chunk later,
      and between the two lies the result for the chunk. */
  lemma ChunkStep(f: BitVec -> BitVec, x: BitVec, chunk: nat, y: BitVec, off: nat)
    requires chunk > 0 && KeepsLength(f) && off < |x| == |y|
    requires y[off..] == Chunked(f, x[off..], chunk)
    ensures var end := End(off, chunk, |x|);
            && y[off..end] == f(x[off..end])
            && (end < |x| ==> y[end..] == Chunked(f, x[end..], chunk))
  {
    var end := End(off, chunk, |x|);
    if end < |x| {
      assert x[off..][..chunk] == x[off..end] && x[off..][chunk..] == x[end..];
      assert y[off..end] == y[off..][..chunk] && y[end..] == y[off..][chunk..];
    } else {
      assert x[off..] == x[off..end] && y[off..] == y[off..end];
    }
  }

  /** The network with a zero key on one chunk. */
  function ChunkNetwork(dec: bool): BitVec -> BitVec {
    x => SubstPerm.Crypt(dec, x, Zeros(|x|), DATA_ROUNDS)
  }

  lemma NetworkInverse(dec: bool)
    ensures KeepsLength(ChunkNetwork(dec))
    ensures forall z :: ChunkNetwork(!dec)(ChunkNetwork(dec)(z)) == z
  {
    forall z ensures |ChunkNetwork(dec)(z)| == |z| && ChunkNetwork(!dec)(ChunkNetwork(dec)(z)) == z {
      SubstPerm.CryptInverse(dec, z, Zeros(|z|), DATA_ROUNDS);
    }
  }

  /** The width of the last chunk. */
  function LastChunk(width: nat, chunk: nat): nat
    requires chunk > 0
  {
    if width <= chunk then width else LastChunk(width - chunk, chunk)
  }

  /** Every chunk, the last one too, has the number of bytes of a whole chunk. */
  predicate ChunksFit(width: nat, chunk: nat)
    requires chunk > 0
  {
    width > 0 ==> NumBytes(LastChunk(width, chunk)) == NumBytes(chunk)
  }

  /** Data of 40 bits in chunks of 16 bits does not pass: its last chunk has one byte and not two. */
  lemma ShortLastChunk()
    ensures LastChunk(40, 16) == 8 && !ChunksFit(40, 16)
  {
    assert LastChunk(8, 16) == 8 && LastChunk(24, 16) == 8;
  }

  /** Copy the bits of a chunk to the front of a vector. */
  method ExtractBits(input: Vec, off: nat, width: nat, bytes: nat) returns (r: Vec)
    requires NumBytes(width) <= bytes && off + width <= 8 * |input|
    ensures |r| == bytes && forall p: nat :: Bit(r, p) == (p < width && Bit(input, off + p))
  {
    r := ZeroBytes(bytes);
    ZeroBytesClear(bytes);
    for j := 0 to width
      invariant |r| == bytes && forall p: nat :: Bit(r, p) == (p < j && Bit(input, off + p))
    {
      var bit := ReadVectorBit(input, j + off);
      r := OrVectorBit(r, j, bit);
    }
  }

  /** Or the bits of a chunk into the output. */
  method InsertBits(v: Vec, data: Vec, off: nat, width: nat) returns (out: Vec)
    requires NumBytes(width) <= |data| && off + width <= 8 * |v|
    ensures |out| == |v|
    ensures forall p: nat :: Bit(out, p) == (Bit(v, p) || (off <= p < off + width && Bit(data, p - off)))
  {
    out := v;
    for j := 0 to width
      invariant |out| == |v|
      invariant forall p: nat :: Bit(out, p) == (Bit(v, p) || (off <= p < off + j && Bit(data, p - off)))
    {
      var bit := ReadVectorBit(data, j);
      out := OrVectorBit(out, j + off, bit);
    }
  }

  /** f is the network with a zero key, in the given direction. */
  ghost predicate IsNetwork(f: BitVec -> BitVec, dec: bool) {
    forall z {:trigger SubstPerm.Crypt(dec, z, Zeros(|z|), DATA_ROUNDS)} ::
      f(z) == SubstPerm.Crypt(dec, z, Zeros(|z|), DATA_ROUNDS)
  }

  /** One chunk through the network. The network's size check stops a chunk whose own number of
      bytes differs from that of a whole chunk. */
  method ScrambleChunk(input: Vec, bitWidth: nat, off: nat, blockWidth: nat, bytes: nat, enc: bool,
                       ghost f: BitVec -> BitVec) returns (ok: bool, data: Vec)
    requires |input| == NumBytes(bitWidth) && off + blockWidth <= bitWidth && NumBytes(blockWidth) <= bytes
    requires IsNetwork(f, !enc)
    ensures ok <==> NumBytes(blockWidth) == bytes
    ensures ok ==> |data| == bytes
    ensures ok ==> LowBits(data, blockWidth) == f(LowBits(input, bitWidth)[off..off + blockWidth])
  {
    data := ExtractBits(input, off, blockWidth, bytes);
    ok := |data| == NumBytes(blockWidth);
    if !ok {
      return;
    }
    ghost var z := LowBits(input, bitWidth)[off..off + blockWidth];
    assert LowBits(data, blockWidth) == z;
    var zeroKey := ZeroBytes(bytes);
    ZeroBytesClear(bytes);
    assert LowBits(zeroKey, blockWidth) == Zeros(|z|);
    if enc {
      data := ScrambleSubstPermEnc(data, zeroKey, blockWidth, DATA_ROUNDS);
    } else {
      data := ScrambleSubstPermDec(data, zeroKey, blockWidth, DATA_ROUNDS);
    }
  }

  /** The output is that of y up to an offset, and y goes on as the data does from there. */
  ghost predicate DoneTo(off: nat, out: Vec, y: BitVec, f: BitVec -> BitVec, x: BitVec, chunk: nat)
    requires chunk > 0 && KeepsLength(f)
  {
    && off <= |x| == |y|
    && (forall p: nat :: Bit(out, p) == (p < off && y[p]))
    && (off < |x| ==> y[off..] == Chunked(f, x[off..], chunk))
  }

  /** One turn of the loop over the chunks. */
  method OneChunk(v: Vec, input: Vec, bitWidth: nat, substPermWidth: nat, bitsSoFar: nat, enc: bool,
                  ghost f: BitVec -> BitVec, ghost y: BitVec) returns (ok: bool, out: Vec)
    requires |v| == |input| == NumBytes(bitWidth) && substPermWidth > 0 && bitsSoFar < bitWidth
    requires KeepsLength(f) && IsNetwork(f, !enc)
    requires DoneTo(bitsSoFar, v, y, f, LowBits(input, bitWidth), substPermWidth)
    ensures |out| == |v|
    ensures var end := End(bitsSoFar, substPermWidth, bitWidth);
            && (ok <==> NumBytes(end - bitsSoFar) == NumBytes(substPermWidth))
            && (ok ==> DoneTo(end, out, y, f, LowBits(input, bitWidth), substPermWidth))
  {
    ghost var x := LowBits(input, bitWidth);
    var bytes := (substPermWidth + 7) / 8;
    var blockWidth := if substPermWidth < bitWidth - bitsSoFar then substPermWidth else bitWidth - bitsSoFar;
    BytesMonotone(blockWidth, substPermWidth);
    out := v;
    var data;
    ok, data := ScrambleChunk(input, bitWidth, bitsSoFar, blockWidth, bytes, enc, f);
    if ok {
      ChunkStep(f, x, substPermWidth, y, bitsSoFar);
      out := InsertChunk(out, data, bitsSoFar, blockWidth, y);
    }
  }

  /** scramble_subst_perm_full_width: it completes exactly when every chunk has as many bytes as a
      whole one. */
  method SubstPermFullWidth(input: Vec, bitWidth: nat, substPermWidth: nat, enc: bool,
                            ghost f: BitVec -> BitVec) returns (ok: bool, out: Vec)
    requires |input| == NumBytes(bitWidth) && substPermWidth > 0
    requires KeepsLength(f) && IsNetwork(f, !enc)
    ensures ok <==> ChunksFit(bitWidth, substPermWidth)
    ensures ok ==> Clean(out, bitWidth)
    ensures ok ==> LowBits(out, bitWidth) == Chunked(f, LowBits(input, bitWidth), substPermWidth)
  {
    ghost var x := LowBits(input, bitWidth);
    ghost var y := Chunked(f, x, substPermWidth);
    out := ZeroBytes(|input|);
    ZeroBytesClear(|input|);
    ghost var last := LastChunk(bitWidth, substPermWidth);
    var bitsSoFar := 0;
    while bitsSoFar < bitWidth
      invariant |out| == |input| && DoneTo(bitsSoFar, out, y, f, x, substPermWidth)
      invariant bitsSoFar < bitWidth ==> LastChunk(bitWidth - bitsSoFar, substPermWidth) == last
      invariant bitsSoFar == bitWidth ==> ChunksFit(bitWidth, substPermWidth)
      decreases bitWidth - bitsSoFar
    {
      ok, out := OneChunk(out, input, bitWidth, substPermWidth, bitsSoFar, enc, f, y);
      if !ok {
        return;
      }
      bitsSoFar := End(bitsSoFar, substPermWidth, bitWidth);
    }
    ok := true;
  }

  lemma BytesMonotone(a: nat, b: nat)
    requires a <= b
    ensures NumBytes(a) <= NumBytes(b)
  {
  }

  /** Write a chunk that belongs to y at its place. */
  method InsertChunk(v: Vec, data: Vec, off: nat, width: nat, ghost y: BitVec) returns (out: Vec)
    requires NumBytes(width) <= |data| && off + width <= |y| <= 8 * |v|
    requires LowBits(data, width) == y[off..off + width]
    requires forall p: nat :: Bit(v, p) == (p < off && y[p])
    ensures |out| == |v| && forall p: nat :: Bit(out, p) == (p < off + width && y[p])
  {
    forall p: nat | off <= p < off + width ensures Bit(data, p - off) == y[p] {
      assert LowBits(data, width)[p - off] == y[off..off + width][p - off];
    }
    out := InsertBits(v, data, off, width);
  }

  // ---------------------------------------------------------------- addresses and data

  /** The key of the address scrambling: the top bits of the nonce. */
  function NonceKey(nonce: Vec, nonceWidth: nat, addrWidth: nat): (k: BitVec)
    requires addrWidth <= nonceWidth
    ensures |k| == addrWidth
  {
    seq(addrWidth, i requires 0 <= i < addrWidth => Bit(nonce, nonceWidth - addrWidth + i))
  }

  /** net is the network that scrambles addresses with this key. */
  ghost predicate IsAddrNetwork(net: BitVec -> BitVec, key: BitVec) {
    forall x {:trigger SubstPerm.Crypt(false, x, key, ADDR_ROUNDS)} ::
      net(x) == SubstPerm.Crypt(false, x, key, ADDR_ROUNDS)
  }

  /** scramble_addr */
  method ScrambleAddr(addrIn: Vec, addrWidth: nat, nonce: Vec, nonceWidth: nat, ghost net: BitVec -> BitVec)
    returns (out: Vec)
    requires |addrIn| == NumBytes(addrWidth) && addrWidth <= nonceWidth <= 8 * |nonce|
    requires IsAddrNetwork(net, NonceKey(nonce, nonceWidth, addrWidth))
    ensures |out| == |addrIn|
    ensures LowBits(out, addrWidth) == net(LowBits(addrIn, addrWidth))
    ensures Clean(addrIn, addrWidth) ==> Clean(out, addrWidth)
  {
    var addrEncNonce := ZeroBytes(|addrIn|);
    ZeroBytesClear(|addrIn|);
    ghost var key := NonceKey(nonce, nonceWidth, addrWidth);
    for i := 0 to addrWidth
      invariant |addrEncNonce| == |addrIn|
      invariant forall p: nat :: Bit(addrEncNonce, p) == (p < i && key[p])
    {
      var bit := ReadVectorBit(nonce, nonceWidth - addrWidth + i);
      addrEncNonce := OrVectorBit(addrEncNonce, i, bit);
    }
    assert LowBits(addrEncNonce, addrWidth) == key;
    out := ScrambleSubstPermEnc(addrIn, addrEncNonce, addrWidth, ADDR_ROUNDS);
  }

  /** What a data word is scrambled with. */
  datatype DataParams = DataParams(width: nat, substPermWidth: nat, addr: Vec, addrWidth: nat, nonce: Vec,
                                   key: Vec, repeatKeystream: bool, useSpLayer: bool)
  {
    /** What the assertions on sizes and bit positions demand. */
    predicate Valid() {
      && |key| == 16 && substPermWidth > 0
      && EnoughBits(addr, addrWidth, nonce, if repeatKeystream then 1 else NumPrinces(width))
    }

    /** Whether the size checks of the network let the data pass. */
    predicate Passes()
      requires substPermWidth > 0
    {
      useSpLayer ==> ChunksFit(width, substPermWidth)
    }
  }

  /** PRINCE with the number of half rounds used for data. */
  function DataCipher(): Cipher {
    (x, k0, k1) => Prince.Crypt(x, k0, k1, false, PRINCE_HALF_ROUNDS, false)
  }

  function DataKeystream(c: Cipher, s: DataParams): (r: BitVec)
    requires s.Valid()
    ensures |r| == s.width
  {
    Keystream(c, s.addr, s.addrWidth, s.nonce, s.key, s.repeatKeystream, s.width)
  }

  ghost function Network(f: BitVec -> BitVec, s: DataParams, x: BitVec): (y: BitVec)
    requires s.Valid() && KeepsLength(f)
    ensures |y| == |x|
  {
    if s.useSpLayer then Chunked(f, x, s.substPermWidth) else x
  }

  ghost function Encrypted(c: Cipher, f: BitVec -> BitVec, s: DataParams, x: BitVec): (y: BitVec)
    requires s.Valid() && KeepsLength(f)
    ensures |y| == |x|
  {
    Network(f, s, Xor(x, DataKeystream(c, s)))
  }

  ghost function Decrypted(c: Cipher, g: BitVec -> BitVec, s: DataParams, y: BitVec): (x: BitVec)
    requires s.Valid() && KeepsLength(g)
    ensures |x| == |y|
  {
    Xor(Network(g, s, y), DataKeystream(c, s))
  }

  /** For every cipher that makes the keystream and every pair of inverse networks, decryption and
      encryption undo each other. */
  lemma DataInverse(c: Cipher, f: BitVec -> BitVec, g: BitVec -> BitVec, s: DataParams, x: BitVec)
    requires s.Valid() && KeepsLength(f) && KeepsLength(g)
    requires forall z :: g(f(z)) == z
    requires forall z :: f(g(z)) == z
    ensures Decrypted(c, g, s, Encrypted(c, f, s, x)) == x
    ensures Encrypted(c, f, s, Decrypted(c, g, s, x)) == x
  {
    var k := DataKeystream(c, s);
    XorTwice(x, k);
    if s.useSpLayer {
      ChunkedInverse(f, g, Xor(x, k), s.substPermWidth);
      ChunkedInverse(g, f, x, s.substPermWidth);
      XorTwice(Chunked(g, x, s.substPermWidth), k);
    }
  }

  /** scramble_encrypt_data */
  method ScrambleEncryptData(dataIn: Vec, s: DataParams, ghost c: Cipher, ghost f: BitVec -> BitVec)
    returns (ok: bool, out: Vec)
    requires s.Valid() && |dataIn| == NumBytes(s.width)
    requires Prince.IsCipher(c, false, PRINCE_HALF_ROUNDS, false)
    requires KeepsLength(f) && (s.useSpLayer ==> IsNetwork(f, false))
    ensures ok <==> s.Passes()
    ensures ok ==> |out| == |dataIn|
    ensures ok ==> LowBits(out, s.width) == Encrypted(c, f, s, LowBits(dataIn, s.width))
    ensures ok && Clean(dataIn, s.width) ==> Clean(out, s.width)
  {
    var keystream := GenKeystream(s.addr, s.addrWidth, s.nonce, s.key, s.width, PRINCE_HALF_ROUNDS,
                                  s.repeatKeystream, c);
    XorVectorsBits(dataIn, keystream, s.width);
    var dataEnc := XorVectors(dataIn, keystream);
    if s.useSpLayer {
      ok, out := SubstPermFullWidth(dataEnc, s.width, s.substPermWidth, true, f);
    } else {
      ok, out := true, dataEnc;
    }
  }

  /** scramble_decrypt_data */
  method ScrambleDecryptData(dataIn: Vec, s: DataParams, ghost c: Cipher, ghost g: BitVec -> BitVec)
    returns (ok: bool, out: Vec)
    requires s.Valid() && |dataIn| == NumBytes(s.width)
    requires Prince.IsCipher(c, false, PRINCE_HALF_ROUNDS, false)
    requires KeepsLength(g) && (s.useSpLayer ==> IsNetwork(g, true))
    ensures ok <==> s.Passes()
    ensures ok ==> |out| == |dataIn|
    ensures ok ==> LowBits(out, s.width) == Decrypted(c, g, s, LowBits(dataIn, s.width))
    ensures ok && Clean(dataIn, s.width) ==> Clean(out, s.width)
  {
    var keystream := GenKeystream(s.addr, s.addrWidth, s.nonce, s.key, s.width, PRINCE_HALF_ROUNDS,
                                  s.repeatKeystream, c);
    if s.useSpLayer {
      var dataSpOut;
      ok, dataSpOut := SubstPermFullWidth(dataIn, s.width, s.substPermWidth, false, g);
      if !ok {
        return false, [];
      }
      XorVectorsBits(dataSpOut, keystream, s.width);
      out := XorVectors(dataSpOut, keystream);
    } else {
      XorVectorsBits(dataIn, keystream, s.width);
      ok, out := true, XorVectors(dataIn, keystream);
    }
  }

  /** A word scrambled and unscrambled with the same parameters is the word. */
  method RoundTrip(data: Vec, s: DataParams) returns (ok: bool, out: Vec)
    requires s.Valid() && Clean(data, s.width)
    ensures ok <==> s.Passes()
    ensures ok ==> out == data
  {
    out := [];
    ghost var c, f, g := DataCipher(), ChunkNetwork(false), ChunkNetwork(true);
    NetworkInverse(false);
    NetworkInverse(true);
    var scrambled;
    ok, scrambled := ScrambleEncryptData(data, s, c, f);
    if ok {
      ok, out := ScrambleDecryptData(scrambled, s, c, g);
      DataInverse(c, f, g, s, LowBits(data, s.width));
      CleanSame(out, data, s.width);
    }
  }
}
