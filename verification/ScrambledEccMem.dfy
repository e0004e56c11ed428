/** ecc32_mem_area.cc and scrambled_ecc32_mem_area.cc: a memory of words with integrity bits, its
    data and addresses scrambled or not, refining a plain map from addresses to words. */
module ScrambledEccMem {
  import opened Bits
  import opened ByteVectors
  import opened IntBits
  import opened EccPacking
  import MemAreas
  import ScrambleData
  import ScrambleModel
  import SubstPerm
  import Prince

  // ---------------------------------------------------------------- the memory as a value

  /** Where the word of an address lies, and what its bits are xored with. */
  datatype Layout = Layout(phys: nat -> nat, mask: nat -> BitVec)

  /** The words of one memory word, or a write of them. */
  datatype WordWrite = WordWrite(addr: nat, words: seq<EccWord>)

  /** No two addresses below the bound share a physical word. */
  ghost predicate Injective(m: Layout, bound: nat) {
    forall a, b | 0 <= a < bound && 0 <= b < bound :: m.phys(a) == m.phys(b) ==> a == b
  }

  /** n 32-bit words for each address. */
  ghost predicate Shaped(m: Layout, mem: seq<BitVec>, n: nat) {
    && (forall i | 0 <= i < |mem| :: |mem[i]| == WORD_BITS * n)
    && (forall a: nat :: |m.mask(a)| == WORD_BITS * n)
  }

  /** The logical content of an address; none outside the memory. */
  function View(m: Layout, mem: seq<BitVec>, n: nat, a: nat): seq<EccWord> {
    var p := m.phys(a);
    if p < |mem| && |mem[p]| == WORD_BITS * n then Unpacked(Xor(mem[p], m.mask(a)), n) else []
  }

  function Stored(m: Layout, w: WordWrite): BitVec {
    Xor(Packed(w.words), m.mask(w.addr))
  }

  /** The memory after the first k of some writes. */
  function After(m: Layout, mem: seq<BitVec>, writes: seq<WordWrite>, k: nat): (r: seq<BitVec>)
    requires k <= |writes|
    ensures |r| == |mem|
  {
    if k == 0 then mem
    else
      var before := After(m, mem, writes, k - 1);
      var p := m.phys(writes[k - 1].addr);
      if p < |before| then before[p := Stored(m, writes[k - 1])] else before
  }

  /** The words last written to an address by the first k writes, or those there at the start. */
  function Latest(writes: seq<WordWrite>, k: nat, a: nat, initial: seq<EccWord>): seq<EccWord>
    requires k <= |writes|
  {
    if k == 0 then initial
    else if writes[k - 1].addr == a then writes[k - 1].words
    else Latest(writes, k - 1, a, initial)
  }

  lemma StoredReadsBack(m: Layout, w: WordWrite)
    requires |m.mask(w.addr)| == WORD_BITS * |w.words|
    ensures |Stored(m, w)| == WORD_BITS * |w.words|
    ensures Unpacked(Xor(Stored(m, w), m.mask(w.addr)), |w.words|) == w.words
  {
    XorTwice(Packed(w.words), m.mask(w.addr));
    UnpackedPacked(w.words);
  }

  ghost predicate WritesFit(writes: seq<WordWrite>, bound: nat, n: nat) {
    forall i | 0 <= i < |writes| :: writes[i].addr < bound && |writes[i].words| == n
  }

  lemma {:induction false} ShapeKept(m: Layout, mem: seq<BitVec>, writes: seq<WordWrite>, k: nat, bound: nat, n: nat)
    requires Shaped(m, mem, n) && WritesFit(writes, bound, n) && k <= |writes|
    ensures Shaped(m, After(m, mem, writes, k), n)
    decreases k
  {
    if k > 0 {
      ShapeKept(m, mem, writes, k - 1, bound, n);
      StoredReadsBack(m, writes[k - 1]);
    }
  }

  /** After any sequence of writes, each address reads as the words last written to it, data and
      validity flags alike, and an address not written keeps its words. */
  lemma {:induction false} ReadsLatest(m: Layout, mem: seq<BitVec>, writes: seq<WordWrite>, k: nat,
                                       bound: nat, n: nat, a: nat)
    requires Shaped(m, mem, n) && WritesFit(writes, bound, n) && Injective(m, bound) && k <= |writes|
    requires a < bound && m.phys(a) < |mem|
    ensures |After(m, mem, writes, k)[m.phys(a)]| == WORD_BITS * n
    ensures View(m, After(m, mem, writes, k), n, a) == Latest(writes, k, a, View(m, mem, n, a))
    decreases k
  {
    ShapeKept(m, mem, writes, k, bound, n);
    if k > 0 {
      var w := writes[k - 1];
      ShapeKept(m, mem, writes, k - 1, bound, n);
      ReadsLatest(m, mem, writes, k - 1, bound, n, a);
      StoredReadsBack(m, w);
      assert w.addr < bound;
      if w.addr != a { assert m.phys(w.addr) != m.phys(a); }
    }
  }

  // ---------------------------------------------------------------- the layout of a memory area

  /** An area's size in words, 32-bit words in each, address width, and scrambling if it has any. */
  datatype Config = Config(size: nat, width32: nat, addrWidth: nat, scrambled: bool,
                           repeatKeystream: bool, key: Vec, nonce: Vec)
  {
    function PhysWidth(): nat {
      width32 * 39
    }

    function PhysWidthByte(): nat {
      (PhysWidth() + 7) / 8
    }

    function PrinceReplications(): nat {
      if repeatKeystream then 1 else (PhysWidthByte() + 7) / 8
    }

    function NonceWidth(): nat {
      PrinceReplications() * 64
    }

    /** What the constructors assert and set, for a size of 32 bits, and the documented key and
        nonce sizes. */
    predicate Valid() {
      && 0 < size && IsVBits(size, addrWidth) && addrWidth <= 32
      && 0 < width32 && PhysWidth() <= 8 * MemAreas.MINIBUF_BYTES
      && |key| == 16 && |nonce| == PrinceReplications() * 8
    }

    function AddrKey(): BitVec
      requires Valid()
    {
      ScrambleData.NonceKey(nonce, NonceWidth(), addrWidth)
    }
  }

  /** The constructor of ScrambledEcc32MemArea: the address width is computed from the size. */
  method Configure(size: nat, width32: nat, repeatKeystream: bool, key: Vec, nonce: Vec) returns (c: Config)
    requires 0 < size < 0x1_0000_0000 && 0 < width32 && 39 * width32 <= 8 * MemAreas.MINIBUF_BYTES && |key| == 16
    requires |nonce| == 8 * if repeatKeystream then 1 else ((width32 * 39 + 7) / 8 + 7) / 8
    ensures c.Valid() && c.scrambled && c.size == size && c.width32 == width32
    ensures c.repeatKeystream == repeatKeystream && c.key == key && c.nonce == nonce
  {
    var addrWidth := VBits(size);
    Pow2Of32();
    if addrWidth > 32 { Pow2Monotone(32, addrWidth - 1); }
    c := Config(size, width32, addrWidth, true, repeatKeystream, key, nonce);
  }

  /** ToPhysAddr, with the address network as a parameter. */
  function PhysOf(c: Config, net: BitVec -> BitVec, a: nat): nat {
    if c.scrambled then ToInt(net(ToBits(a, c.addrWidth))) else a
  }

  /** The keystream of an address, with the cipher as a parameter. */
  function MaskOf(c: Config, cipher: ScrambleData.Cipher, a: nat): (x: BitVec)
    requires c.Valid()
    ensures |x| == c.PhysWidth()
  {
    if c.scrambled
    then ScrambleData.Keystream(cipher, AddrBytes(a, c.addrWidth), c.addrWidth, c.nonce, c.key,
                                c.repeatKeystream, c.PhysWidth())
    else Zeros(c.PhysWidth())
  }

  /** A network that keeps lengths and maps distinct vectors of one length to distinct ones. */
  ghost predicate IsPermutation(net: BitVec -> BitVec) {
    && (forall x :: |net(x)| == |x|)
    && (forall x, y {:trigger net(x), net(y)} :: |x| == |y| && net(x) == net(y) ==> x == y)
  }

  lemma AddrNetworkPermutes(net: BitVec -> BitVec, key: BitVec)
    requires ScrambleData.IsAddrNetwork(net, key)
    ensures IsPermutation(net)
  {
    forall x ensures |net(x)| == |x| {
      assert net(x) == SubstPerm.Crypt(false, x, key, ScrambleModel.ADDR_ROUNDS);
    }
    forall x, y | |x| == |y| && net(x) == net(y) ensures x == y {
      SubstPerm.CryptBijective(false, x, y, key, ScrambleModel.ADDR_ROUNDS);
    }
  }

  /** ToPhysAddr is one-to-one on the addresses of the address width, and stays among them. */
  lemma PhysInjective(c: Config, net: BitVec -> BitVec, a: nat, b: nat)
    requires IsPermutation(net) && a < Pow2(c.addrWidth) && b < Pow2(c.addrWidth)
    ensures PhysOf(c, net, a) < Pow2(c.addrWidth)
    ensures PhysOf(c, net, a) == PhysOf(c, net, b) ==> a == b
  {
    var x, y := net(ToBits(a, c.addrWidth)), net(ToBits(b, c.addrWidth));
    ToIntBelow(x);
    ToBitsOfInt(x);
    ToBitsOfInt(y);
    ToIntOfBits(a, c.addrWidth);
    ToIntOfBits(b, c.addrWidth);
  }

  /** Every address of the address width is the physical address of one. */
  lemma PhysOnto(c: Config, key: BitVec, p: nat) returns (a: nat)
    requires p < Pow2(c.addrWidth) && c.scrambled
    ensures a < Pow2(c.addrWidth)
    ensures PhysOf(c, x => SubstPerm.Crypt(false, x, key, ScrambleModel.ADDR_ROUNDS), a) == p
  {
    var y := ToBits(p, c.addrWidth);
    var x := SubstPerm.Crypt(true, y, key, ScrambleModel.ADDR_ROUNDS);
    SubstPerm.CryptInverse(true, y, key, ScrambleModel.ADDR_ROUNDS);
    a := ToInt(x);
    ToIntBelow(x);
    ToBitsOfInt(x);
    ToIntOfBits(p, c.addrWidth);
  }

  /** In a memory of 2^k words, k at least one, no access can fall outside. */
  lemma PowerOfTwoInRange(c: Config, net: BitVec -> BitVec, k: nat, a: nat)
    requires IsPermutation(net) && k >= 1 && c.size == Pow2(k) && IsVBits(c.size, c.addrWidth) && a < c.size
    ensures PhysOf(c, net, a) < c.size
  {
    VBitsOfPower(k, c.addrWidth);
    PhysInjective(c, net, a, a);
  }

  /** The layout of a configuration. */
  ghost predicate IsLayout(m: Layout, c: Config, net: BitVec -> BitVec, cipher: ScrambleData.Cipher)
    requires c.Valid()
  {
    && (forall a {:trigger PhysOf(c, net, a)} :: m.phys(a) == PhysOf(c, net, a))
    && (forall a {:trigger MaskOf(c, cipher, a)} :: m.mask(a) == MaskOf(c, cipher, a))
  }

  lemma LayoutInjective(m: Layout, c: Config, net: BitVec -> BitVec, cipher: ScrambleData.Cipher)
    requires c.Valid() && IsLayout(m, c, net, cipher) && IsPermutation(net)
    ensures Injective(m, c.size)
  {
    forall a, b | 0 <= a < c.size && 0 <= b < c.size && m.phys(a) == m.phys(b) ensures a == b {
      assert PhysOf(c, net, a) == PhysOf(c, net, b);
      PhysInjective(c, net, a, b);
    }
  }

  // ---------------------------------------------------------------- the memory area

  /** Data as writes to consecutive addresses, n 32-bit words each. */
  function WordWrites(off: nat, data: seq<EccWord>, n: nat): seq<WordWrite>
    requires n > 0
    decreases |data|
  {
    if |data| < n then [] else [WordWrite(off, data[..n])] + WordWrites(off + 1, data[n..], n)
  }

  /** Bytes as writes of valid words to consecutive addresses. */
  function ByteWrites(off: nat, data: Vec, n: nat): seq<WordWrite>
    requires n > 0
    decreases |data|
  {
    if |data| < 4 * n then []
    else [WordWrite(off, ValidWords(data, 0, n))] + ByteWrites(off + 1, data[4 * n..], n)
  }

  /** Write i is that of the data at i times n. */
  lemma {:induction false} WordWriteAt(off: nat, data: seq<EccWord>, n: nat, k: nat, i: nat)
    requires n > 0 && |data| == k * n && i < k
    ensures |WordWrites(off, data, n)| == k && 0 <= i * n && i * n + n <= |data|
    ensures WordWrites(off, data, n)[i] == WordWrite(off + i, data[i * n..i * n + n])
    decreases k
  {
    MultiplesBelow(0, k, n);
    MultiplesBelow(i, k, n);
    Multiples(k, n);
    if i > 0 {
      Multiples(i, n);
      WordWriteAt(off + 1, data[n..], n, k - 1, i - 1);
      assert data[n..][(i - 1) * n..(i - 1) * n + n] == data[i * n..i * n + n];
    } else {
      WordWriteCount(off + 1, data[n..], n, k - 1);
    }
  }

  lemma {:induction false} WordWriteCount(off: nat, data: seq<EccWord>, n: nat, k: nat)
    requires n > 0 && |data| == k * n
    ensures |WordWrites(off, data, n)| == k
    decreases k
  {
    if k > 0 {
      Multiples(k, n);
      WordWriteCount(off + 1, data[n..], n, k - 1);
    }
  }

  lemma {:induction false} ByteWriteAt(off: nat, data: Vec, n: nat, k: nat, i: nat)
    requires n > 0 && |data| == k * (4 * n) && i < k
    ensures |ByteWrites(off, data, n)| == k && 0 <= i * (4 * n) && i * (4 * n) + 4 * n <= |data|
    ensures ByteWrites(off, data, n)[i] == WordWrite(off + i, ValidWords(data, i * (4 * n), n))
    decreases k
  {
    MultiplesBelow(0, k, 4 * n);
    MultiplesBelow(i, k, 4 * n);
    Multiples(k, 4 * n);
    if i > 0 {
      Multiples(i, 4 * n);
      ByteWriteAt(off + 1, data[4 * n..], n, k - 1, i - 1);
      assert ValidWords(data[4 * n..], (i - 1) * (4 * n), n) == ValidWords(data, i * (4 * n), n);
    } else {
      ByteWriteCount(off + 1, data[4 * n..], n, k - 1);
    }
  }

  lemma {:induction false} ByteWriteCount(off: nat, data: Vec, n: nat, k: nat)
    requires n > 0 && |data| == k * (4 * n)
    ensures |ByteWrites(off, data, n)| == k
    decreases k
  {
    if k > 0 {
      Multiples(k, 4 * n);
      ByteWriteCount(off + 1, data[4 * n..], n, k - 1);
    }
  }

  lemma Multiples(k: nat, n: nat)
    requires k > 0
    ensures k * n == (k - 1) * n + n && 0 <= (k - 1) * n
  {
  }

  lemma MultiplesBelow(i: nat, k: nat, n: nat)
    requires i < k
    ensures 0 <= i * n && i * n + n <= k * n
  {
    assert (k - i - 1) * n >= 0;
    assert k * n == i * n + n + (k - i - 1) * n;
  }

  /** The contents of some consecutive addresses. */
  function Views(m: Layout, mem: seq<BitVec>, n: nat, off: nat, k: nat): seq<EccWord> {
    if k == 0 then [] else Views(m, mem, n, off, k - 1) + View(m, mem, n, off + k - 1)
  }

  function ViewsFrom(m: Layout, mem: seq<BitVec>, n: nat, off: nat): nat -> seq<EccWord> {
    (k: nat) => Views(m, mem, n, off, k)
  }

  function BytesFrom(m: Layout, mem: seq<BitVec>, n: nat, off: nat): nat -> Vec {
    (k: nat) => DataBytes(Views(m, mem, n, off, k))
  }

  lemma ViewsCollect(m: Layout, mem: seq<BitVec>, n: nat, off: nat)
    ensures var f := ViewsFrom(m, mem, n, off); f(0) == [] && Collects(f, ws => ws, m, mem, n, off)
  {
  }

  lemma ViewsAppend(f: nat -> seq<EccWord>, m: Layout, mem: seq<BitVec>, n: nat, off: nat, k: nat)
    requires Collects(f, ws => ws, m, mem, n, off)
    ensures f(k + 1) == f(k) + View(m, mem, n, off + k)
  {
    var before, after := Views(m, mem, n, off, k), Views(m, mem, n, off, k + 1);
    assert f(k) == before && f(k + 1) == after;
  }

  lemma BytesAppend(f: nat -> Vec, m: Layout, mem: seq<BitVec>, n: nat, off: nat, k: nat, words: seq<EccWord>)
    requires Collects(f, DataBytes, m, mem, n, off) && words == View(m, mem, n, off + k)
    ensures f(k + 1) == f(k) + DataBytes(words)
  {
    var before, after := Views(m, mem, n, off, k), Views(m, mem, n, off, k + 1);
    assert f(k) == DataBytes(before) && f(k + 1) == DataBytes(after);
    DataBytesOfCat(before, words);
  }

  lemma BytesCollect(m: Layout, mem: seq<BitVec>, n: nat, off: nat)
    ensures var f := BytesFrom(m, mem, n, off); f(0) == [] && Collects(f, DataBytes, m, mem, n, off)
  {
  }

  /** What a loop that reads consecutive words has collected after k turns. */
  ghost predicate Collects<T(!new)>(f: nat -> T, g: seq<EccWord> -> T, m: Layout, mem: seq<BitVec>, n: nat, off: nat) {
    forall k: nat {:trigger Views(m, mem, n, off, k)} :: f(k) == g(Views(m, mem, n, off, k))
  }

  lemma BufferFits(c: Config)
    requires c.Valid()
    ensures PhysicalBytes(c.width32) <= MemAreas.MINIBUF_BYTES
  {
  }

  /** The virtual WriteBufferWithIntegrity and WriteBuffer, for write i of some data. */
  method FillWithWords(buf: array<Byte>, off: nat, data: seq<EccWord>, n: nat, i: nat,
                       ghost writes: seq<WordWrite>)
    requires AreWordWrites(off, data, n, writes) && i < |writes| && PhysicalBytes(n) <= buf.Length
    modifies buf
    ensures var w := writes[i]; w.addr == off + i && |w.words| == n && Filled(buf, Packed(w.words), n, n)
  {
    assert IsWordWrite(off, data, n, i, writes[i]);
    WriteBufferWithIntegrity(buf, data, i * n, n);
  }

  method FillWithBytes(buf: array<Byte>, off: nat, data: Vec, n: nat, i: nat,
                       ghost writes: seq<WordWrite>)
    requires AreByteWrites(off, data, n, writes) && i < |writes| && PhysicalBytes(n) <= buf.Length
    modifies buf
    ensures var w := writes[i]; w.addr == off + i && |w.words| == n && Filled(buf, Packed(w.words), n, n)
  {
    assert IsByteWrite(off, data, n, i, writes[i]);
    WriteBuffer(buf, data, i * (4 * n), n);
  }

  /** A scrambled or plain ECC memory area with the simulated memory behind it. */
  class EccMemArea {
    const config: Config
    var mem: seq<BitVec>
    ghost const layout: Layout
    ghost const net: BitVec -> BitVec
    ghost const cipher: ScrambleData.Cipher

    ghost predicate Valid()
      reads this`mem
    {
      && config.Valid()
      && |mem| == config.size
      && Shaped(layout, mem, config.width32)
      && IsLayout(layout, config, net, cipher)
      && ScrambleData.IsAddrNetwork(net, config.AddrKey())
      && Prince.IsCipher(cipher, false, ScrambleModel.PRINCE_HALF_ROUNDS, false)
    }

    /** The memory behind the area is given; the area connects to it. */
    constructor (config: Config, mem: seq<BitVec>)
      requires config.Valid() && |mem| == config.size
      requires forall i | 0 <= i < |mem| :: |mem[i]| == config.PhysWidth()
      ensures Valid() && this.config == config && this.mem == mem
    {
      ghost var net: BitVec -> BitVec := x => SubstPerm.Crypt(false, x, config.AddrKey(), ScrambleModel.ADDR_ROUNDS);
      ghost var cipher := ScrambleData.DataCipher();
      this.config := config;
      this.mem := mem;
      this.net := net;
      this.cipher := cipher;
      this.layout := Layout((a: nat) => PhysOf(config, net, a), (a: nat) => MaskOf(config, cipher, a));
    }

    /** ToPhysAddr */
    method ToPhysAddr(logicalAddr: nat) returns (p: nat)
      requires Valid() && logicalAddr < config.size
      ensures p == layout.phys(logicalAddr)
    {
      ghost var spec := PhysOf(config, net, logicalAddr);
      if !config.scrambled {
        return logicalAddr;
      }
      var addrBytes := AddrIntToBytes(logicalAddr, config.addrWidth);
      AddrBytesHold(logicalAddr, config.addrWidth);
      var scrambled := ScrambleData.ScrambleAddr(addrBytes, config.addrWidth, config.nonce, config.NonceWidth(), net);
      CleanToInt(scrambled, config.addrWidth);
      p := AddrBytesToInt(scrambled);
    }

    /** ScrambleBuffer: the bytes of a physical word, encrypted in place. */
    method ScrambleBuffer(buf: array<Byte>, dstWord: nat)
      requires Valid() && config.scrambled && buf.Length == MemAreas.MINIBUF_BYTES
      modifies buf
      ensures LowBits(buf[..], config.PhysWidth()) ==
              Xor(old(LowBits(buf[..], config.PhysWidth())), layout.mask(dstWord))
    {
      ghost var spec := MaskOf(config, cipher, dstWord);
      var bytes := config.PhysWidthByte();
      PrefixBits(buf[..], bytes, config.PhysWidth());
      var scrambleBuf := EncryptWord(config, buf[..bytes], dstWord, cipher);
      CopyBack(buf, scrambleBuf, config.PhysWidth());
    }

    /** ReadUnscrambled */
    method ReadUnscrambled(buf: Vec, srcWord: nat) returns (data: Vec)
      requires Valid() && config.scrambled && |buf| == MemAreas.MINIBUF_BYTES
      ensures |data| == config.PhysWidthByte()
      ensures LowBits(data, config.PhysWidth()) == Xor(LowBits(buf, config.PhysWidth()), layout.mask(srcWord))
    {
      ghost var spec := MaskOf(config, cipher, srcWord);
      var bytes := config.PhysWidthByte();
      PrefixBits(buf, bytes, config.PhysWidth());
      data := DecryptWord(config, buf[..bytes], srcWord, cipher);
    }

    /** The rest of write i once the buffer is filled: scramble it and set the memory. An address
        outside the simulated memory is refused. */
    method FinishWord(minibuf: array<Byte>, dstWord: nat, ghost writes: seq<WordWrite>, ghost i: nat,
                      ghost start: seq<BitVec>, ghost states: nat -> seq<BitVec>) returns (ok: bool)
      requires Valid() && dstWord < config.size && minibuf.Length == MemAreas.MINIBUF_BYTES
      requires i < |writes| && writes[i].addr == dstWord && |writes[i].words| == config.width32
      requires Filled(minibuf, Packed(writes[i].words), config.width32, config.width32)
      requires mem == states(i) && IsHistory(states, layout, start, writes)
      modifies this`mem, minibuf
      ensures Valid() && (ok <==> layout.phys(dstWord) < config.size)
      ensures mem == states(if ok then i + 1 else i)
    {
      ghost var w := writes[i];
      ghost var before, after := After(layout, start, writes, i), After(layout, start, writes, i + 1);
      var physAddr := ToPhysAddr(dstWord);
      FilledBits(minibuf[..], minibuf, Packed(w.words), config.width32);
      if config.scrambled {
        ScrambleBuffer(minibuf, dstWord);
      } else {
        NoMask(layout, config, net, cipher, dstWord);
        XorZeros(Packed(w.words), config.PhysWidth());
      }
      StoredReadsBack(layout, w);
      ok := SetMem(physAddr, minibuf);
    }

    /** WriteFromMinibuf: the simulator takes the bits of the memory's width. */
    method SetMem(physAddr: nat, minibuf: array<Byte>) returns (ok: bool)
      requires minibuf.Length == MemAreas.MINIBUF_BYTES && config.PhysWidth() <= 8 * MemAreas.MINIBUF_BYTES
      modifies this`mem
      ensures ok <==> physAddr < |old(mem)|
      ensures mem == if ok then old(mem)[physAddr := LowBits(minibuf[..], config.PhysWidth())] else old(mem)
    {
      ok := physAddr < |mem|;
      if ok {
        mem := mem[physAddr := LowBits(minibuf[..], config.PhysWidth())];
      }
    }

    /** WriteWithIntegrity: word by word, up to the first that the simulator refuses. */
    method WriteWithIntegrity(wordOffset: nat, data: seq<EccWord>) returns (done: nat)
      requires Valid() && |data| % config.width32 == 0 && wordOffset + |data| / config.width32 <= config.size
      modifies this`mem
      ensures Valid()
      ensures var writes := WordWrites(wordOffset, data, config.width32);
              && done <= |writes| == |data| / config.width32
              && mem == After(layout, old(mem), writes, done)
              && done == Accepted(layout, config.size, wordOffset, |writes|)
    {
      var toWrite := |data| / config.width32;
      ghost var writes := WordWrites(wordOffset, data, config.width32);
      WordWritesRight(wordOffset, data, config.width32);
      ghost var states := StatesFrom(layout, mem, writes);
      HistoryRight(layout, mem, writes);
      done := WriteWords(wordOffset, data, toWrite, writes, states);
      assert states(done) == After(layout, old(mem), writes, done);
    }

    method WriteWords(wordOffset: nat, data: seq<EccWord>, toWrite: nat, ghost writes: seq<WordWrite>,
                      ghost states: nat -> seq<BitVec>)
      returns (done: nat)
      requires Valid() && wordOffset + toWrite <= config.size && |writes| == toWrite
      requires AreWordWrites(wordOffset, data, config.width32, writes)
      requires mem == states(0) && IsHistory(states, layout, mem, writes)
      modifies this`mem
      ensures Valid() && done <= toWrite && mem == states(done)
      ensures done == Accepted(layout, config.size, wordOffset, toWrite)
    {
      var minibuf := new Byte[MemAreas.MINIBUF_BYTES](_ => Zeros(8));
      done := 0;
      while done < toWrite
        invariant Valid() && minibuf.Length == MemAreas.MINIBUF_BYTES && fresh(minibuf)
        invariant mem == states(done) && Reached(layout, config.size, wordOffset, toWrite, done)
      {
        var ok := WriteWord(minibuf, wordOffset, data, done, writes, old(mem), states);
        ReachedStep(layout, config.size, wordOffset, toWrite, done);
        if !ok {
          return;
        }
        done := done + 1;
      }
    }

    /** One turn of the loop. */
    method WriteWord(minibuf: array<Byte>, wordOffset: nat, data: seq<EccWord>, i: nat,
                     ghost writes: seq<WordWrite>, ghost start: seq<BitVec>, ghost states: nat -> seq<BitVec>)
      returns (ok: bool)
      requires Valid() && wordOffset + i < config.size && minibuf.Length == MemAreas.MINIBUF_BYTES && i < |writes|
      requires AreWordWrites(wordOffset, data, config.width32, writes)
      requires mem == states(i) && IsHistory(states, layout, start, writes)
      modifies this`mem, minibuf
      ensures Valid() && (ok <==> layout.phys(wordOffset + i) < config.size)
      ensures mem == states(if ok then i + 1 else i)
    {
      BufferFits(config);
      FillWithWords(minibuf, wordOffset, data, config.width32, i, writes);
      ok := FinishWord(minibuf, wordOffset + i, writes, i, start, states);
    }

    /** Write, for data that fills whole memory words; every word is written valid. */
    method Write(wordOffset: nat, data: Vec) returns (done: nat)
      requires Valid() && |data| % (4 * config.width32) == 0
      requires wordOffset + |data| / (4 * config.width32) <= config.size
      modifies this`mem
      ensures Valid()
      ensures var writes := ByteWrites(wordOffset, data, config.width32);
              && done <= |writes| == |data| / (4 * config.width32)
              && mem == After(layout, old(mem), writes, done)
              && done == Accepted(layout, config.size, wordOffset, |writes|)
    {
      var widthByte := 4 * config.width32;
      var dataWords := (|data| + widthByte - 1) / widthByte;
      ghost var writes := ByteWrites(wordOffset, data, config.width32);
      ByteWritesRight(wordOffset, data, config.width32);
      ghost var states := StatesFrom(layout, mem, writes);
      HistoryRight(layout, mem, writes);
      done := WriteAllBytes(wordOffset, data, dataWords, writes, states);
      assert states(done) == After(layout, old(mem), writes, done);
    }

    method WriteAllBytes(wordOffset: nat, data: Vec, dataWords: nat, ghost writes: seq<WordWrite>,
                      ghost states: nat -> seq<BitVec>)
      returns (done: nat)
      requires Valid() && wordOffset + dataWords <= config.size && |writes| == dataWords
      requires AreByteWrites(wordOffset, data, config.width32, writes)
      requires mem == states(0) && IsHistory(states, layout, mem, writes)
      modifies this`mem
      ensures Valid() && done <= dataWords && mem == states(done)
      ensures done == Accepted(layout, config.size, wordOffset, dataWords)
    {
      var minibuf := new Byte[MemAreas.MINIBUF_BYTES](_ => Zeros(8));
      done := 0;
      while done < dataWords
        invariant Valid() && minibuf.Length == MemAreas.MINIBUF_BYTES && fresh(minibuf)
        invariant mem == states(done) && Reached(layout, config.size, wordOffset, dataWords, done)
      {
        var ok := WriteBytes(minibuf, wordOffset, data, done, writes, old(mem), states);
        ReachedStep(layout, config.size, wordOffset, dataWords, done);
        if !ok {
          return;
        }
        done := done + 1;
      }
    }

    method WriteBytes(minibuf: array<Byte>, wordOffset: nat, data: Vec, i: nat,
                      ghost writes: seq<WordWrite>, ghost start: seq<BitVec>, ghost states: nat -> seq<BitVec>)
      returns (ok: bool)
      requires Valid() && wordOffset + i < config.size && minibuf.Length == MemAreas.MINIBUF_BYTES && i < |writes|
      requires AreByteWrites(wordOffset, data, config.width32, writes)
      requires mem == states(i) && IsHistory(states, layout, start, writes)
      modifies this`mem, minibuf
      ensures Valid() && (ok <==> layout.phys(wordOffset + i) < config.size)
      ensures mem == states(if ok then i + 1 else i)
    {
      BufferFits(config);
      FillWithBytes(minibuf, wordOffset, data, config.width32, i, writes);
      ok := FinishWord(minibuf, wordOffset + i, writes, i, start, states);
    }

    /** ReadToMinibuf: the bits of the memory word, zeros above. */
    method ReadToMinibuf(physAddr: nat) returns (minibuf: Vec)
      requires physAddr < |mem| && |mem[physAddr]| <= 8 * MemAreas.MINIBUF_BYTES
      ensures |minibuf| == MemAreas.MINIBUF_BYTES && LowBits(minibuf, |mem[physAddr]|) == mem[physAddr]
    {
      var x := mem[physAddr] + Zeros(8 * MemAreas.MINIBUF_BYTES - |mem[physAddr]|);
      minibuf := LittleEndian(x);
      forall p | 0 <= p < |mem[physAddr]| ensures Bit(minibuf, p) == mem[physAddr][p] {
        LittleEndianBit(x, p);
      }
    }

    /** The read of one memory word, unscrambled if the memory is scrambled. */
    method ReadWord(srcWord: nat) returns (ok: bool, buf: Vec)
      requires Valid() && srcWord < config.size
      ensures ok <==> layout.phys(srcWord) < config.size
      ensures ok ==> config.PhysWidth() <= 8 * |buf|
      ensures ok ==> WordsIn(buf, config.width32) == View(layout, mem, config.width32, srcWord)
    {
      var physAddr := ToPhysAddr(srcWord);
      ok, buf := physAddr < |mem|, [];
      if ok {
        buf := ReadToMinibuf(physAddr);
        if config.scrambled {
          buf := ReadUnscrambled(buf, srcWord);
        } else {
          NoMask(layout, config, net, cipher, srcWord);
          XorZeros(mem[physAddr], config.PhysWidth());
        }
        SameWords(buf, config.PhysWidth(), config.width32);
      }
    }

    /** ReadWithIntegrity: the words of consecutive addresses with their validity flags, unless the
        simulator refuses one. */
    method ReadWithIntegrity(wordOffset: nat, numWords: nat) returns (ok: bool, ret: seq<EccWord>)
      requires Valid() && wordOffset + numWords <= config.size
      ensures ok <==> Accepted(layout, config.size, wordOffset, numWords) == numWords
      ensures ok ==> ret == Views(layout, mem, config.width32, wordOffset, numWords)
    {
      ghost var f := ViewsFrom(layout, mem, config.width32, wordOffset);
      ViewsCollect(layout, mem, config.width32, wordOffset);
      ok, ret := ReadWords(wordOffset, numWords, f);
    }

    method ReadWords(wordOffset: nat, numWords: nat, ghost f: nat -> seq<EccWord>) returns (ok: bool, ret: seq<EccWord>)
      requires Valid() && wordOffset + numWords <= config.size
      requires f(0) == [] && Collects(f, ws => ws, layout, mem, config.width32, wordOffset)
      ensures ok <==> Accepted(layout, config.size, wordOffset, numWords) == numWords
      ensures ok ==> ret == f(numWords)
    {
      ret := [];
      for i := 0 to numWords
        invariant ret == f(i) && Reached(layout, config.size, wordOffset, numWords, i)
      {
        ok, ret := AppendWord(ret, wordOffset, i, f);
        ReachedStep(layout, config.size, wordOffset, numWords, i);
        if !ok {
          return;
        }
      }
      ok := true;
    }

    /** One turn of the loop. */
    method AppendWord(data: seq<EccWord>, wordOffset: nat, i: nat, ghost f: nat -> seq<EccWord>)
      returns (ok: bool, r: seq<EccWord>)
      requires Valid() && wordOffset + i < config.size
      requires data == f(i) && Collects(f, ws => ws, layout, mem, config.width32, wordOffset)
      ensures ok <==> layout.phys(wordOffset + i) < config.size
      ensures ok ==> r == f(i + 1)
    {
      ViewsAppend(f, layout, mem, config.width32, wordOffset, i);
      r := data;
      var buf;
      ok, buf := ReadWord(wordOffset + i);
      if ok {
        r := ReadBufferWithIntegrity(r, buf, config.width32);
      }
    }

    /** Read: the data bytes of the same words. */
    method Read(wordOffset: nat, numWords: nat) returns (ok: bool, ret: Vec)
      requires Valid() && wordOffset + numWords <= config.size
      ensures ok <==> Accepted(layout, config.size, wordOffset, numWords) == numWords
      ensures ok ==> ret == DataBytes(Views(layout, mem, config.width32, wordOffset, numWords))
    {
      ghost var f := BytesFrom(layout, mem, config.width32, wordOffset);
      BytesCollect(layout, mem, config.width32, wordOffset);
      ok, ret := ReadBytes(wordOffset, numWords, f);
    }

    method ReadBytes(wordOffset: nat, numWords: nat, ghost f: nat -> Vec) returns (ok: bool, ret: Vec)
      requires Valid() && wordOffset + numWords <= config.size
      requires f(0) == [] && Collects(f, DataBytes, layout, mem, config.width32, wordOffset)
      ensures ok <==> Accepted(layout, config.size, wordOffset, numWords) == numWords
      ensures ok ==> ret == f(numWords)
    {
      ret := [];
      for i := 0 to numWords
        invariant ret == f(i) && Reached(layout, config.size, wordOffset, numWords, i)
      {
        ok, ret := AppendBytes(ret, wordOffset, i, f);
        ReachedStep(layout, config.size, wordOffset, numWords, i);
        if !ok {
          return;
        }
      }
      ok := true;
    }

    /** One turn of the loop. */
    method AppendBytes(data: Vec, wordOffset: nat, i: nat, ghost f: nat -> Vec) returns (ok: bool, r: Vec)
      requires Valid() && wordOffset + i < config.size
      requires data == f(i) && Collects(f, DataBytes, layout, mem, config.width32, wordOffset)
      ensures ok <==> layout.phys(wordOffset + i) < config.size
      ensures ok ==> r == f(i + 1)
    {
      r := data;
      var buf;
      ok, buf := ReadWord(wordOffset + i);
      if ok {
        BytesAppend(f, layout, mem, config.width32, wordOffset, i, WordsIn(buf, config.width32));
        r := ReadBuffer(r, buf, config.width32);
      }
    }
  }

  /** Words depend on the bits they take. */
  lemma SameWords(buf: Vec, width: nat, n: nat)
    requires width == WORD_BITS * n && width <= 8 * |buf|
    ensures WordsIn(buf, n) == Unpacked(LowBits(buf, width), n)
  {
    forall i | 0 <= i < n ensures Slice(LowBits(buf, 8 * |buf|), i) == Slice(LowBits(buf, width), i) {
    }
  }

  lemma {:induction false} DataBytesOfCat(xs: seq<EccWord>, ys: seq<EccWord>)
    ensures DataBytes(xs + ys) == DataBytes(xs) + DataBytes(ys)
    decreases |ys|
  {
    if ys == [] {
      assert xs + ys == xs;
    } else {
      assert (xs + ys)[..|xs + ys| - 1] == xs + ys[..|ys| - 1];
      DataBytesOfCat(xs, ys[..|ys| - 1]);
    }
  }

  /** The parameters with which the data of an address is scrambled. */
  function Params(c: Config, addrBytes: Vec): ScrambleData.DataParams {
    ScrambleData.DataParams(c.PhysWidth(), 39, addrBytes, c.addrWidth, c.nonce, c.key, c.repeatKeystream, false)
  }

  lemma ParamsValid(c: Config, addrBytes: Vec)
    requires c.Valid() && |addrBytes| == NumBytes(c.addrWidth)
    ensures Params(c, addrBytes).Valid()
  {
    var princes := if c.repeatKeystream then 1 else ScrambleData.NumPrinces(c.PhysWidth());
    assert princes <= c.PrinceReplications();
    assert princes * (64 - c.addrWidth) <= princes * 64;
  }

  /** Without the network, both directions xor the keystream. */
  lemma OnlyKeystream(c: Config, cipher: ScrambleData.Cipher, f: BitVec -> BitVec, a: nat, x: BitVec)
    requires c.Valid() && c.scrambled && ScrambleData.KeepsLength(f) && Params(c, AddrBytes(a, c.addrWidth)).Valid()
    ensures var s := Params(c, AddrBytes(a, c.addrWidth));
            && ScrambleData.Encrypted(cipher, f, s, x) == Xor(x, MaskOf(c, cipher, a))
            && ScrambleData.Decrypted(cipher, f, s, x) == Xor(x, MaskOf(c, cipher, a))
  {
  }

  method EncryptWord(c: Config, data: Vec, a: nat, ghost cipher: ScrambleData.Cipher) returns (r: Vec)
    requires c.Valid() && c.scrambled && |data| == c.PhysWidthByte()
    requires Prince.IsCipher(cipher, false, ScrambleModel.PRINCE_HALF_ROUNDS, false)
    ensures |r| == |data|
    ensures LowBits(r, c.PhysWidth()) == Xor(LowBits(data, c.PhysWidth()), MaskOf(c, cipher, a))
  {
    ghost var none: BitVec -> BitVec := x => x;
    assert ScrambleData.KeepsLength(none);
    var addrBytes := AddrIntToBytes(a, c.addrWidth);
    var s := Params(c, addrBytes);
    ParamsValid(c, addrBytes);
    var ok;
    ok, r := ScrambleData.ScrambleEncryptData(data, s, cipher, none);
    OnlyKeystream(c, cipher, none, a, LowBits(data, c.PhysWidth()));
  }

  method DecryptWord(c: Config, data: Vec, a: nat, ghost cipher: ScrambleData.Cipher) returns (r: Vec)
    requires c.Valid() && c.scrambled && |data| == c.PhysWidthByte()
    requires Prince.IsCipher(cipher, false, ScrambleModel.PRINCE_HALF_ROUNDS, false)
    ensures |r| == |data|
    ensures LowBits(r, c.PhysWidth()) == Xor(LowBits(data, c.PhysWidth()), MaskOf(c, cipher, a))
  {
    ghost var none: BitVec -> BitVec := x => x;
    assert ScrambleData.KeepsLength(none);
    var addrBytes := AddrIntToBytes(a, c.addrWidth);
    var s := Params(c, addrBytes);
    ParamsValid(c, addrBytes);
    var ok;
    ok, r := ScrambleData.ScrambleDecryptData(data, s, cipher, none);
    OnlyKeystream(c, cipher, none, a, LowBits(data, c.PhysWidth()));
  }

  /** The memory after each number of writes. */
  ghost predicate IsHistory(states: nat -> seq<BitVec>, m: Layout, start: seq<BitVec>, writes: seq<WordWrite>) {
    forall k: nat {:trigger After(m, start, writes, k)} | k <= |writes| :: states(k) == After(m, start, writes, k)
  }

  function StatesFrom(m: Layout, start: seq<BitVec>, writes: seq<WordWrite>): nat -> seq<BitVec> {
    (k: nat) => if k <= |writes| then After(m, start, writes, k) else start
  }

  lemma HistoryRight(m: Layout, start: seq<BitVec>, writes: seq<WordWrite>)
    ensures StatesFrom(m, start, writes)(0) == start && IsHistory(StatesFrom(m, start, writes), m, start, writes)
  {
  }

  /** Write i of some data. */
  predicate IsWordWrite(off: nat, data: seq<EccWord>, n: nat, i: nat, w: WordWrite) {
    0 <= i * n && i * n + n <= |data| && w == WordWrite(off + i, data[i * n..i * n + n])
  }

  predicate IsByteWrite(off: nat, data: Vec, n: nat, i: nat, w: WordWrite) {
    && 0 <= i * (4 * n) && i * (4 * n) + 4 * n <= |data|
    && w == WordWrite(off + i, ValidWords(data, i * (4 * n), n))
  }

  ghost predicate AreWordWrites(off: nat, data: seq<EccWord>, n: nat, writes: seq<WordWrite>) {
    forall i {:trigger IsWordWrite(off, data, n, i, writes[i])} | 0 <= i < |writes| ::
      IsWordWrite(off, data, n, i, writes[i])
  }

  ghost predicate AreByteWrites(off: nat, data: Vec, n: nat, writes: seq<WordWrite>) {
    forall i {:trigger IsByteWrite(off, data, n, i, writes[i])} | 0 <= i < |writes| ::
      IsByteWrite(off, data, n, i, writes[i])
  }

  /** Data of whole words gives one write for each. */
  lemma WordWritesRight(off: nat, data: seq<EccWord>, n: nat)
    requires n > 0 && |data| % n == 0
    ensures |WordWrites(off, data, n)| == |data| / n && AreWordWrites(off, data, n, WordWrites(off, data, n))
  {
    var k := |data| / n;
    WholeNumber(|data|, n);
    WordWriteCount(off, data, n, k);
    forall i | 0 <= i < k ensures IsWordWrite(off, data, n, i, WordWrites(off, data, n)[i]) {
      WordWriteAt(off, data, n, k, i);
    }
  }

  lemma ByteWritesRight(off: nat, data: Vec, n: nat)
    requires n > 0 && |data| % (4 * n) == 0
    ensures |ByteWrites(off, data, n)| == |data| / (4 * n) == (|data| + 4 * n - 1) / (4 * n)
    ensures AreByteWrites(off, data, n, ByteWrites(off, data, n))
  {
    var k := |data| / (4 * n);
    WholeNumber(|data|, 4 * n);
    ByteWriteCount(off, data, n, k);
    forall i | 0 <= i < k ensures IsByteWrite(off, data, n, i, ByteWrites(off, data, n)[i]) {
      ByteWriteAt(off, data, n, k, i);
    }
  }

  lemma WholeNumber(len: nat, width: nat)
    requires width > 0 && len % width == 0
    ensures (len + width - 1) / width == len / width && len / width * width == len
  {
    var q := len / width;
    assert len == q * width;
    MemAreas.WordCount(q, width);
  }

  /** How many of k addresses from lo on come before the first whose physical word is outside the
      memory. */
  function Accepted(m: Layout, size: nat, lo: nat, k: nat): (r: nat)
    ensures r <= k
    decreases k
  {
    if k == 0 || m.phys(lo) >= size then 0 else 1 + Accepted(m, size, lo + 1, k - 1)
  }

  /** The first i of k addresses from lo on are accepted. */
  predicate Reached(m: Layout, size: nat, lo: nat, k: nat, i: nat) {
    i <= k && Accepted(m, size, lo, k) == i + Accepted(m, size, lo + i, k - i)
  }

  /** One address further, or the first that is refused. */
  lemma ReachedStep(m: Layout, size: nat, lo: nat, k: nat, i: nat)
    requires i < k && Reached(m, size, lo, k, i)
    ensures if m.phys(lo + i) < size then Reached(m, size, lo, k, i + 1) else Accepted(m, size, lo, k) == i
  {
  }

  /** Every access of a range succeeds exactly when every physical address is inside the memory. */
  lemma {:induction false} AllAccepted(m: Layout, size: nat, lo: nat, k: nat)
    ensures Accepted(m, size, lo, k) == k <==> forall a | lo <= a < lo + k :: m.phys(a) < size
    decreases k
  {
    if k > 0 { AllAccepted(m, size, lo + 1, k - 1); }
  }

  lemma FilledBits(v: Vec, buf: array<Byte>, x: BitVec, n: nat)
    requires |x| == WORD_BITS * n && Filled(buf, x, n, n) && v == buf[..]
    ensures LowBits(v, WORD_BITS * n) == x
  {
    forall p | 0 <= p < WORD_BITS * n ensures Bit(v, p) == x[p] {
      assert BitIn(buf, p) == x[p];
    }
  }

  lemma NoMask(m: Layout, c: Config, net: BitVec -> BitVec, cipher: ScrambleData.Cipher, a: nat)
    requires c.Valid() && IsLayout(m, c, net, cipher) && !c.scrambled
    ensures m.mask(a) == Zeros(c.PhysWidth())
  {
    assert m.mask(a) == MaskOf(c, cipher, a);
  }

  lemma XorZeros(x: BitVec, n: nat)
    ensures Xor(x, Zeros(n)) == x
  {
  }

  lemma PrefixBits(v: Vec, n: nat, width: nat)
    requires n <= |v| && width <= 8 * n
    ensures LowBits(v[..n], width) == LowBits(v, width)
  {
    assert v == v[..n] + v[n..];
    forall p | 0 <= p < width ensures Bit(v[..n], p) == Bit(v, p) { BitOfCat(v[..n], v[n..], p); }
  }

  method CopyBack(buf: array<Byte>, v: Vec, ghost width: nat)
    requires |v| <= buf.Length && width <= 8 * |v|
    modifies buf
    ensures LowBits(buf[..], width) == LowBits(v, width)
  {
    for k := 0 to |v|
      invariant buf[..k] == v[..k]
    {
      buf[k] := v[k];
    }
    assert buf[..][..|v|] == v;
    PrefixBits(buf[..], |v|, width);
  }

  /** A memory in which no access can fall outside: not scrambled, or of 2^j words, j at least one. */
  predicate NeverOutside(c: Config, j: nat) {
    c.scrambled ==> j >= 1 && c.size == Pow2(j)
  }

  /** Such a memory remembers: after any sequence of writes, every address can be read, and reads as the
      words last written to it or as it did at the start. */
  lemma MemoryRemembers(m: Layout, c: Config, net: BitVec -> BitVec, cipher: ScrambleData.Cipher, mem: seq<BitVec>,
                        writes: seq<WordWrite>, j: nat, a: nat)
    requires c.Valid() && IsLayout(m, c, net, cipher) && ScrambleData.IsAddrNetwork(net, c.AddrKey())
    requires NeverOutside(c, j) && c.size == |mem|
    requires Shaped(m, mem, c.width32) && WritesFit(writes, c.size, c.width32) && a < c.size
    ensures m.phys(a) < c.size
    ensures View(m, After(m, mem, writes, |writes|), c.width32, a) ==
            Latest(writes, |writes|, a, View(m, mem, c.width32, a))
  {
    AddrNetworkPermutes(net, c.AddrKey());
    assert m.phys(a) == PhysOf(c, net, a);
    if c.scrambled { PowerOfTwoInRange(c, net, j, a); }
    LayoutInjective(m, c, net, cipher);
    ReadsLatest(m, mem, writes, |writes|, c.size, c.width32, a);
  }

  // ---------------------------------------------------------------- other sizes

  /** A scrambled memory of one word has one address bit, and accepts its only word exactly when the top
      bit of the nonce is clear. */
  lemma OneWordMemory(c: Config, net: BitVec -> BitVec)
    requires c.Valid() && c.scrambled && c.size == 1 && ScrambleData.IsAddrNetwork(net, c.AddrKey())
    ensures c.addrWidth == 1
    ensures PhysOf(c, net, 0) < c.size <==> !Bit(c.nonce, c.NonceWidth() - 1)
    ensures PhysOf(c, net, 0) <= 1
  {
    var k := Bit(c.nonce, c.NonceWidth() - 1);
    assert c.AddrKey() == [k];
    assert ToBits(0, 1) == [false] && SubstPerm.Flip([k]) == [k];
    SubstPerm.NarrowCrypt([false], [k]);
    assert net([false]) == SubstPerm.Crypt(false, [false], c.AddrKey(), ScrambleModel.ADDR_ROUNDS);
    assert Xor([false], [k]) == [k];
    assert ToInt([k]) == if k then 1 else 0;
  }

  /** A scrambled memory of three words accepts all of them exactly when the two top bits of the nonce are
      clear; with both set, for one, the word of address 0 is refused. */
  lemma ThreeWordMemory(c: Config, net: BitVec -> BitVec)
    requires c.Valid() && c.scrambled && c.size == 3 && ScrambleData.IsAddrNetwork(net, c.AddrKey())
    ensures c.addrWidth == 2
    ensures var k, l := Bit(c.nonce, c.NonceWidth() - 2), Bit(c.nonce, c.NonceWidth() - 1);
            && ((forall a | 0 <= a < 3 :: PhysOf(c, net, a) < c.size) <==> !k && !l)
            && (k && l ==> PhysOf(c, net, 0) == 3)
  {
    assert Pow2(1) == 2 && Pow2(2) == 4;
    if c.addrWidth > 2 { Pow2Monotone(2, c.addrWidth - 1); }
    var k, l := Bit(c.nonce, c.NonceWidth() - 2), Bit(c.nonce, c.NonceWidth() - 1);
    assert c.AddrKey() == [k, l];
    PhysOfTwoBits(c, net, 0, k, l);
    PhysOfTwoBits(c, net, 1, k, l);
    PhysOfTwoBits(c, net, 2, k, l);
  }

  lemma PhysOfTwoBits(c: Config, net: BitVec -> BitVec, a: nat, k: bool, l: bool)
    requires c.scrambled && c.addrWidth == 2 && a < 4 && ScrambleData.IsAddrNetwork(net, [k, l])
    ensures PhysOf(c, net, a) == (if (a % 2 == 1) != l then 1 else 0) + if (a / 2 == 1) != k then 2 else 0
  {
    var x, y := a % 2 == 1, a / 2 == 1;
    assert ToBits(a / 2, 1) == [y] && ToBits(a, 2) == [x, y];
    SubstPerm.NarrowCrypt([x, y], [k, l]);
    assert net([x, y]) == SubstPerm.Crypt(false, [x, y], [k, l], ScrambleModel.ADDR_ROUNDS);
    assert Xor([x, y], SubstPerm.Flip([k, l])) == [x != l, y != k];
    assert [x != l, y != k][1..] == [y != k];
    assert ToInt([y != k]) == if y != k then 1 else 0;
  }
}
