/** The scrambled memory from its two sides: what the C++ memory area puts into the array of
    prim_ram_1p_scr.sv is what the RTL reads, and the other way round. */
module ScrambledBackdoor {
  import opened Bits
  import opened ByteVectors
  import opened IntBits
  import opened EccPacking
  import opened ScrambledEccMem
  import Prince
  import R = ScrambledRam
  import ScrambleData
  import ScrambleModel
  import SubstPerm

  // ---------------------------------------------------------------- the wiring of the RTL

  /** nonce_i and key_i, from the bytes of the configuration. */
  function Nonce(c: Config): (r: BitVec)
    ensures |r| == c.NonceWidth()
  {
    LowBits(c.nonce, c.NonceWidth())
  }

  function Key(c: Config): (r: BitVec)
    ensures |r| == 128
  {
    LowBits(c.key, 128)
  }

  /** The localparams NumParScr and NumParKeystr. */
  function NumParScr(c: Config): nat {
    if c.repeatKeystream then 1 else (c.PhysWidth() + 63) / 64
  }

  function NumParKeystr(c: Config): nat {
    if c.repeatKeystream then (c.PhysWidth() + 63) / 64 else 1
  }

  /** Instance k has 64 - AddrWidth bits of the nonce of its own. */
  lemma NonceSlice(c: Config, k: nat)
    requires c.Valid() && k < NumParScr(c)
    ensures 0 <= k * (64 - c.addrWidth) && k * (64 - c.addrWidth) + (64 - c.addrWidth) <= |Nonce(c)|
  {
    NonceInstances(c);
    ScrambleData.NextMultiple(k, NumParScr(c), 64 - c.addrWidth);
    SmallerSlices(NumParScr(c), c.addrWidth);
  }

  /** The nonce has 64 bits for each instance. */
  lemma NonceInstances(c: Config)
    ensures c.NonceWidth() == 64 * NumParScr(c)
  {
    BytesOfBits(c.PhysWidth());
  }

  lemma BytesOfBits(w: nat)
    ensures ((w + 7) / 8 + 7) / 8 == (w + 63) / 64
  {
    assert (w + 7) / 8 + 7 == (w + 63) / 8;
    assert (w + 63) / 8 / 8 == (w + 63) / 64;
  }

  lemma SmallerSlices(n: nat, w: nat)
    requires w <= 64
    ensures n * (64 - w) <= 64 * n
  {
    assert n * (64 - w) == 64 * n - n * w;
  }

  /** The input of instance k: {data_scr_nonce[k], addr_i}. */
  function InitialVector(c: Config, addr: BitVec, k: nat): (r: Prince.Word)
    requires c.Valid() && |addr| == c.addrWidth && k < NumParScr(c)
  {
    NonceSlice(c, k);
    var at := k * (64 - c.addrWidth);
    addr + Nonce(c)[at..at + (64 - c.addrWidth)]
  }

  /** keystream[k * 64 +: 64] */
  function Block(c: Config, cipher: ScrambleData.Cipher, addr: BitVec, k: nat): Prince.Word
    requires c.Valid() && |addr| == c.addrWidth && k < NumParScr(c)
  {
    cipher(InitialVector(c, addr, k), Key(c)[64..], Key(c)[..64])
  }

  /** The first n instances side by side. */
  function Keystream(c: Config, cipher: ScrambleData.Cipher, addr: BitVec, n: nat): (r: BitVec)
    requires c.Valid() && |addr| == c.addrWidth && n <= NumParScr(c)
    ensures |r| == 64 * n
  {
    if n == 0 then [] else Keystream(c, cipher, addr, n - 1) + Block(c, cipher, addr, n - 1)
  }

  function Copies(x: BitVec, n: nat): (r: BitVec)
    ensures |x| == 64 ==> |r| == 64 * n
  {
    if n == 0 then [] else Copies(x, n - 1) + x
  }

  /** keystream_repl */
  function KeystreamRepl(c: Config, cipher: ScrambleData.Cipher, addr: BitVec): (r: BitVec)
    requires c.Valid() && |addr| == c.addrWidth
    ensures |r| == c.PhysWidth()
  {
    var keystream := Keystream(c, cipher, addr, NumParScr(c));
    if c.repeatKeystream then Copies(keystream, NumParKeystr(c))[..c.PhysWidth()]
    else keystream[..c.PhysWidth()]
  }

  /** The RAM instance for a configuration, without diffusion and with the default number of address
      rounds. */
  function Instance(c: Config, cipher: ScrambleData.Cipher, diffWidth: nat): R.Params
    requires c.Valid()
  {
    R.Params(c.addrWidth, c.PhysWidth(), diffWidth, 0, ScrambleModel.ADDR_ROUNDS,
             Nonce(c)[c.NonceWidth() - c.addrWidth..],
             (x: BitVec) => if |x| == c.addrWidth then KeystreamRepl(c, cipher, x) else [])
  }

  // ---------------------------------------------------------------- the keystreams agree

  lemma InitialVectorsAgree(c: Config, a: nat, k: nat)
    requires c.Valid() && a < Pow2(c.addrWidth) && k < NumParScr(c)
    ensures InitialVector(c, ToBits(a, c.addrWidth), k) ==
            ScrambleData.Iv(AddrBytes(a, c.addrWidth), c.addrWidth, c.nonce, k)
  {
    var w, addr := c.addrWidth, ToBits(a, c.addrWidth);
    var x, y := InitialVector(c, addr, k), ScrambleData.Iv(AddrBytes(a, w), w, c.nonce, k);
    AddrBytesHold(a, w);
    NonceSlice(c, k);
    forall j | 0 <= j < 64 ensures x[j] == y[j] {
      if j < w {
        assert LowBits(AddrBytes(a, w), w)[j] == Bit(AddrBytes(a, w), j);
      } else {
        assert x[j] == Nonce(c)[k * (64 - w) + (j - w)];
      }
    }
  }

  lemma BlocksAgree(c: Config, cipher: ScrambleData.Cipher, a: nat, k: nat)
    requires c.Valid() && a < Pow2(c.addrWidth) && k < NumParScr(c)
    ensures Block(c, cipher, ToBits(a, c.addrWidth), k) ==
            ScrambleData.Block(cipher, AddrBytes(a, c.addrWidth), c.addrWidth, c.nonce, c.key, k)
  {
    InitialVectorsAgree(c, a, k);
    KeyHalves(c.key);
  }

  lemma KeyHalves(key: Vec)
    requires |key| == 16
    ensures LowBits(key, 128)[64..] == LowBits(key[8..], 64) && LowBits(key, 128)[..64] == LowBits(key[..8], 64)
  {
    assert key == key[..8] + key[8..];
    forall p | 0 <= p < 64
      ensures LowBits(key, 128)[64 + p] == Bit(key[8..], p) && LowBits(key, 128)[p] == Bit(key[..8], p)
    {
      BitOfCat(key[..8], key[8..], 64 + p);
      BitOfCat(key[..8], key[8..], p);
    }
  }

  lemma {:induction false} StreamsAgree(c: Config, cipher: ScrambleData.Cipher, a: nat, f: nat -> Prince.Word, n: nat)
    requires c.Valid() && a < Pow2(c.addrWidth) && n <= NumParScr(c)
    requires forall k: nat | k < n ::
               f(k) == ScrambleData.Block(cipher, AddrBytes(a, c.addrWidth), c.addrWidth, c.nonce, c.key, k)
    ensures Keystream(c, cipher, ToBits(a, c.addrWidth), n) == ScrambleData.Stream(f, n)
    decreases n
  {
    if n > 0 {
      StreamsAgree(c, cipher, a, f, n - 1);
      BlocksAgree(c, cipher, a, n - 1);
    }
  }

  lemma {:induction false} CopiesAgree(x: Prince.Word, f: nat -> Prince.Word, n: nat)
    requires forall k: nat :: f(k) == x
    ensures Copies(x, n) == ScrambleData.Stream(f, n)
    decreases n
  {
    if n > 0 { CopiesAgree(x, f, n - 1); }
  }

  /** The whole stream, before it is cut to the width. */
  lemma DistinctBlocksAgree(c: Config, cipher: ScrambleData.Cipher, a: nat, f: nat -> Prince.Word)
    requires c.Valid() && !c.repeatKeystream && a < Pow2(c.addrWidth)
    requires f == ScrambleData.Blocks(cipher, AddrBytes(a, c.addrWidth), c.addrWidth, c.nonce, c.key, false)
    ensures Keystream(c, cipher, ToBits(a, c.addrWidth), NumParScr(c)) == ScrambleData.Stream(f, NumParScr(c))
  {
    StreamsAgree(c, cipher, a, f, NumParScr(c));
  }

  lemma RepeatedBlocksAgree(c: Config, cipher: ScrambleData.Cipher, a: nat, f: nat -> Prince.Word)
    requires c.Valid() && c.repeatKeystream && a < Pow2(c.addrWidth)
    requires f == ScrambleData.Blocks(cipher, AddrBytes(a, c.addrWidth), c.addrWidth, c.nonce, c.key, true)
    ensures Copies(Keystream(c, cipher, ToBits(a, c.addrWidth), 1), NumParKeystr(c)) ==
            ScrambleData.Stream(f, NumParKeystr(c))
  {
    var addr := ToBits(a, c.addrWidth);
    OneInstance(c, cipher, addr);
    BlocksAgree(c, cipher, a, 0);
    CopiesAgree(Block(c, cipher, addr, 0), f, NumParKeystr(c));
  }

  /** With the same cipher the RTL and the C++ model produce the same keystream for every address, with
      distinct blocks or with one block repeated. */
  lemma KeystreamsAgree(c: Config, cipher: ScrambleData.Cipher, a: nat)
    requires c.Valid() && c.scrambled && a < Pow2(c.addrWidth)
    ensures KeystreamRepl(c, cipher, ToBits(a, c.addrWidth)) == MaskOf(c, cipher, a)
  {
    var f := ScrambleData.Blocks(cipher, AddrBytes(a, c.addrWidth), c.addrWidth, c.nonce, c.key, c.repeatKeystream);
    if c.repeatKeystream { RepeatedBlocksAgree(c, cipher, a, f); } else { DistinctBlocksAgree(c, cipher, a, f); }
  }

  lemma OneInstance(c: Config, cipher: ScrambleData.Cipher, addr: BitVec)
    requires c.Valid() && |addr| == c.addrWidth && NumParScr(c) == 1
    ensures Keystream(c, cipher, addr, 1) == Block(c, cipher, addr, 0)
  {
    assert Keystream(c, cipher, addr, 0) == [];
  }

  // ---------------------------------------------------------------- one word

  lemma {:induction false} NoDiffusion(p: R.Params, dec: bool, x: BitVec)
    requires R.ValidParams(p) && p.diffRounds == 0
    ensures R.Diffuse(p, dec, x) == x
    decreases |x|
  {
    if |x| > p.diffWidth { NoDiffusion(p, dec, x[p.diffWidth..]); }
  }

  /** The two sides of one memory: a layout as the C++ model has it for a configuration, and a RAM instance
      for the same configuration and cipher. */
  ghost predicate SameMemory(m: Layout, c: Config, net: BitVec -> BitVec, cipher: ScrambleData.Cipher, p: R.Params) {
    && c.Valid() && c.scrambled
    && IsLayout(m, c, net, cipher) && ScrambleData.IsAddrNetwork(net, c.AddrKey())
    && R.ValidParams(p) && p == Instance(c, cipher, p.diffWidth)
  }

  /** Both sides find the word of an address in the same place. */
  lemma PlacesAgree(m: Layout, c: Config, net: BitVec -> BitVec, cipher: ScrambleData.Cipher, p: R.Params, a: nat)
    requires SameMemory(m, c, net, cipher, p)
    ensures ToInt(R.ScrambleAddr(p, ToBits(a, c.addrWidth))) == m.phys(a)
  {
    assert p.addrKey == c.AddrKey();
    assert m.phys(a) == PhysOf(c, net, a);
  }

  /** Both sides decrypt it to the same bits. */
  lemma WordsAgree(m: Layout, c: Config, net: BitVec -> BitVec, cipher: ScrambleData.Cipher, p: R.Params,
                   a: nat, word: BitVec)
    requires SameMemory(m, c, net, cipher, p) && a < c.size
    ensures R.Decrypt(p, word, ToBits(a, c.addrWidth)) == Xor(word, m.mask(a))
  {
    NoDiffusion(p, true, word);
    KeystreamsAgree(c, cipher, a);
    assert m.mask(a) == MaskOf(c, cipher, a);
  }

  // ---------------------------------------------------------------- the backdoor writes, the RTL reads

  /** The bits last written to an address, or those there at the start. */
  function LatestBits(m: Layout, start: seq<BitVec>, writes: seq<WordWrite>, k: nat, a: nat): BitVec
    requires k <= |writes| && m.phys(a) < |start|
  {
    if k == 0 then Xor(start[m.phys(a)], m.mask(a))
    else if writes[k - 1].addr == a then Packed(writes[k - 1].words)
    else LatestBits(m, start, writes, k - 1, a)
  }

  lemma {:induction false} AfterBits(m: Layout, start: seq<BitVec>, writes: seq<WordWrite>, k: nat,
                                     bound: nat, n: nat, a: nat)
    requires Shaped(m, start, n) && WritesFit(writes, bound, n) && Injective(m, bound) && k <= |writes|
    requires a < bound && m.phys(a) < |start|
    ensures Xor(After(m, start, writes, k)[m.phys(a)], m.mask(a)) == LatestBits(m, start, writes, k, a)
    decreases k
  {
    if k > 0 {
      var w := writes[k - 1];
      AfterBits(m, start, writes, k - 1, bound, n, a);
      assert w.addr < bound && |w.words| == n;
      if w.addr == a { XorTwice(Packed(w.words), m.mask(a)); } else { assert m.phys(w.addr) != m.phys(a); }
    }
  }

  predicate Consecutive(writes: seq<WordWrite>, off: nat) {
    forall j | 0 <= j < |writes| :: writes[j].addr == off + j
  }

  /** Writes to consecutive addresses: those have what was written there, the others what was there. */
  lemma {:induction false} WrittenBits(m: Layout, start: seq<BitVec>, writes: seq<WordWrite>, off: nat, k: nat, i: nat,
                                       a: nat)
    requires i < k <= |writes| && Consecutive(writes, off) && a == off + i && m.phys(a) < |start|
    ensures LatestBits(m, start, writes, k, a) == Packed(writes[i].words)
    decreases k
  {
    assert writes[k - 1].addr == off + (k - 1);
    if i < k - 1 { WrittenBits(m, start, writes, off, k - 1, i, a); }
  }

  lemma {:induction false} OtherBits(m: Layout, start: seq<BitVec>, writes: seq<WordWrite>, off: nat, k: nat, a: nat)
    requires k <= |writes| && Consecutive(writes, off) && m.phys(a) < |start| && !(off <= a < off + k)
    ensures LatestBits(m, start, writes, k, a) == Xor(start[m.phys(a)], m.mask(a))
    decreases k
  {
    if k > 0 {
      assert writes[k - 1].addr == off + (k - 1);
      OtherBits(m, start, writes, off, k - 1, a);
    }
  }

  /** The RAM decrypts the word of an address to these bits. */
  predicate DecryptsTo(p: R.Params, mem: seq<BitVec>, a: nat, x: BitVec)
    requires R.ValidParams(p)
  {
    var addr := ToBits(a, p.addrWidth);
    var at := ToInt(R.ScrambleAddr(p, addr));
    at < |mem| && R.Decrypt(p, mem[at], addr) == x
  }

  lemma DecryptsToMeans(m: Layout, c: Config, net: BitVec -> BitVec, cipher: ScrambleData.Cipher, p: R.Params,
                        mem: seq<BitVec>, a: nat, x: BitVec)
    requires SameMemory(m, c, net, cipher, p) && a < c.size
    ensures DecryptsTo(p, mem, a, x) <==> m.phys(a) < |mem| && Xor(mem[m.phys(a)], m.mask(a)) == x
  {
    PlacesAgree(m, c, net, cipher, p, a);
    if m.phys(a) < |mem| { WordsAgree(m, c, net, cipher, p, a, mem[m.phys(a)]); }
  }

  lemma {:induction false} AcceptedInside(m: Layout, size: nat, lo: nat, k: nat, i: nat)
    requires i < Accepted(m, size, lo, k)
    ensures m.phys(lo + i) < size
    decreases k
  {
    if i > 0 { AcceptedInside(m, size, lo + 1, k - 1, i - 1); }
  }

  /** After any writes the RAM decrypts an address to the bits last written there. */
  lemma WritesDecrypt(m: Layout, c: Config, net: BitVec -> BitVec, cipher: ScrambleData.Cipher, p: R.Params,
                      start: seq<BitVec>, writes: seq<WordWrite>, k: nat, a: nat, x: BitVec)
    requires SameMemory(m, c, net, cipher, p) && a < c.size
    requires Shaped(m, start, c.width32) && WritesFit(writes, c.size, c.width32) && k <= |writes|
    ensures DecryptsTo(p, After(m, start, writes, k), a, x) <==>
              m.phys(a) < |start| && LatestBits(m, start, writes, k, a) == x
  {
    DecryptsToMeans(m, c, net, cipher, p, After(m, start, writes, k), a, x);
    if m.phys(a) < |start| {
      AddrNetworkPermutes(net, c.AddrKey());
      LayoutInjective(m, c, net, cipher);
      AfterBits(m, start, writes, k, c.size, c.width32, a);
    }
  }

  /** The first words of some data, n 32-bit words each, are what the RAM decrypts from an offset on. */
  ghost predicate DataDecrypts(p: R.Params, mem: seq<BitVec>, off: nat, data: seq<EccWord>, n: nat, done: nat)
    requires R.ValidParams(p)
  {
    forall i | 0 <= i < done :: WordDecrypts(p, mem, off, data, n, i)
  }

  predicate WordDecrypts(p: R.Params, mem: seq<BitVec>, off: nat, data: seq<EccWord>, n: nat, i: nat)
    requires R.ValidParams(p)
  {
    0 <= i * n && i * n + n <= |data| && DecryptsTo(p, mem, off + i, Packed(data[i * n..i * n + n]))
  }

  /** All other addresses are decrypted as before. */
  ghost predicate OthersDecrypt(p: R.Params, before: seq<BitVec>, after: seq<BitVec>, size: nat, off: nat, done: nat)
    requires R.ValidParams(p)
  {
    forall a: nat, x: BitVec | a < size && !(off <= a < off + done) ::
      DecryptsTo(p, after, a, x) <==> DecryptsTo(p, before, a, x)
  }

  lemma DataIsDecrypted(m: Layout, c: Config, net: BitVec -> BitVec, cipher: ScrambleData.Cipher, p: R.Params,
                        start: seq<BitVec>, writes: seq<WordWrite>, off: nat, data: seq<EccWord>, done: nat)
    requires SameMemory(m, c, net, cipher, p) && |start| == c.size && Shaped(m, start, c.width32)
    requires AreWordWrites(off, data, c.width32, writes) && off + |writes| <= c.size
    requires done == Accepted(m, c.size, off, |writes|)
    ensures DataDecrypts(p, After(m, start, writes, done), off, data, c.width32, done)
  {
    WordWritesFit(c, off, data, writes);
    forall i: nat | i < done ensures WordDecrypts(p, After(m, start, writes, done), off, data, c.width32, i) {
      AcceptedInside(m, c.size, off, |writes|, i);
      assert IsWordWrite(off, data, c.width32, i, writes[i]);
      WordIsDecrypted(m, c, net, cipher, p, start, writes, off, data, done, i);
    }
  }

  lemma WordIsDecrypted(m: Layout, c: Config, net: BitVec -> BitVec, cipher: ScrambleData.Cipher, p: R.Params,
                        start: seq<BitVec>, writes: seq<WordWrite>, off: nat, data: seq<EccWord>, done: nat, i: nat)
    requires SameMemory(m, c, net, cipher, p) && |start| == c.size && Shaped(m, start, c.width32)
    requires WritesFit(writes, c.size, c.width32) && Consecutive(writes, off)
    requires i < done <= |writes| && m.phys(off + i) < c.size && IsWordWrite(off, data, c.width32, i, writes[i])
    ensures WordDecrypts(p, After(m, start, writes, done), off, data, c.width32, i)
  {
    var w := writes[i];
    WrittenBits(m, start, writes, off, done, i, w.addr);
    LatestDecrypts(m, c, net, cipher, p, start, writes, done, w.addr, Packed(w.words));
  }

  lemma LatestDecrypts(m: Layout, c: Config, net: BitVec -> BitVec, cipher: ScrambleData.Cipher, p: R.Params,
                       start: seq<BitVec>, writes: seq<WordWrite>, k: nat, a: nat, x: BitVec)
    requires SameMemory(m, c, net, cipher, p) && Shaped(m, start, c.width32) && WritesFit(writes, c.size, c.width32)
    requires k <= |writes| && a < c.size && m.phys(a) < |start| && LatestBits(m, start, writes, k, a) == x
    ensures DecryptsTo(p, After(m, start, writes, k), a, x)
  {
    WritesDecrypt(m, c, net, cipher, p, start, writes, k, a, x);
  }

  lemma OthersAreDecrypted(m: Layout, c: Config, net: BitVec -> BitVec, cipher: ScrambleData.Cipher, p: R.Params,
                           start: seq<BitVec>, writes: seq<WordWrite>, off: nat, data: seq<EccWord>, done: nat)
    requires SameMemory(m, c, net, cipher, p) && |start| == c.size && Shaped(m, start, c.width32)
    requires AreWordWrites(off, data, c.width32, writes) && off + |writes| <= c.size && done <= |writes|
    ensures OthersDecrypt(p, start, After(m, start, writes, done), c.size, off, done)
  {
    WordWritesFit(c, off, data, writes);
    forall a: nat, x: BitVec | a < c.size && !(off <= a < off + done)
      ensures DecryptsTo(p, After(m, start, writes, done), a, x) <==> DecryptsTo(p, start, a, x)
    {
      WritesDecrypt(m, c, net, cipher, p, start, writes, done, a, x);
      DecryptsToMeans(m, c, net, cipher, p, start, a, x);
      if m.phys(a) < |start| { OtherBits(m, start, writes, off, done, a); }
    }
  }

  lemma WordWritesFit(c: Config, off: nat, data: seq<EccWord>, writes: seq<WordWrite>)
    requires c.Valid() && AreWordWrites(off, data, c.width32, writes) && off + |writes| <= c.size
    ensures WritesFit(writes, c.size, c.width32) && Consecutive(writes, off)
  {
    forall j | 0 <= j < |writes|
      ensures writes[j].addr == off + j && |writes[j].words| == c.width32
    {
      assert IsWordWrite(off, data, c.width32, j, writes[j]);
    }
  }

  /** In the RAM instance of the area's configuration every word that WriteWithIntegrity has written
      decrypts to the packed words it was given, and every other address decrypts as before. */
  method WriteThenDecrypt(area: EccMemArea, wordOffset: nat, data: seq<EccWord>, ghost p: R.Params)
    returns (done: nat)
    requires area.Valid() && SameMemory(area.layout, area.config, area.net, area.cipher, p)
    requires |data| % area.config.width32 == 0 && wordOffset + |data| / area.config.width32 <= area.config.size
    modifies area`mem
    ensures area.Valid()
    ensures done == Accepted(area.layout, area.config.size, wordOffset, |data| / area.config.width32)
    ensures DataDecrypts(p, area.mem, wordOffset, data, area.config.width32, done)
    ensures OthersDecrypt(p, old(area.mem), area.mem, area.config.size, wordOffset, done)
  {
    ghost var start, c, m := area.mem, area.config, area.layout;
    ghost var writes := WordWrites(wordOffset, data, c.width32);
    WordWritesRight(wordOffset, data, c.width32);
    done := area.WriteWithIntegrity(wordOffset, data);
    DataIsDecrypted(m, c, area.net, area.cipher, p, start, writes, wordOffset, data, done);
    OthersAreDecrypted(m, c, area.net, area.cipher, p, start, writes, wordOffset, data, done);
  }

  // ---------------------------------------------------------------- whole runs

  /** The RAM macro's array has these words. */
  ghost predicate HoldsArray(s: R.State, addrWidth: nat, mem: seq<BitVec>) {
    forall y: BitVec | |y| == addrWidth && ToInt(y) < |mem| :: y in s.mem && s.mem[y] == mem[ToInt(y)]
  }

  /** A write to this address has been granted and has not reached the array. */
  predicate Outstanding(s: R.State, addr: BitVec) {
    (s.writeEn || s.pending) && s.waddr == addr
  }

  /** A plain memory starts with what the RAM has at an address. */
  predicate StartsAs(p: R.Params, s: R.State, addr: BitVec, m0: BitVec -> BitVec) {
    R.ValidState(p, s) && |addr| == p.addrWidth && R.ScrambleAddr(p, addr) in s.mem && m0(addr) == R.Plain(p, s, addr)
  }

  /** Where no write is outstanding the RTL's plain memory is what the C++ model reads. */
  lemma PlainAgrees(m: Layout, c: Config, net: BitVec -> BitVec, cipher: ScrambleData.Cipher, p: R.Params,
                    s: R.State, mem: seq<BitVec>, a: nat)
    requires SameMemory(m, c, net, cipher, p) && a < c.size && m.phys(a) < |mem|
    requires R.Inv(p, s) && HoldsArray(s, c.addrWidth, mem) && !Outstanding(s, ToBits(a, c.addrWidth))
    ensures R.Plain(p, s, ToBits(a, c.addrWidth)) == Xor(mem[m.phys(a)], m.mask(a))
  {
    var addr := ToBits(a, c.addrWidth);
    var y := R.ScrambleAddr(p, addr);
    PlacesAgree(m, c, net, cipher, p, a);
    WordsAgree(m, c, net, cipher, p, a, mem[m.phys(a)]);
    assert s.mem[y] == mem[ToInt(y)];
    if (s.writeEn || s.pending) && s.waddrScr == y { R.ScrambleAddrInjective(p, addr, s.waddr); }
  }

  /** The RAM is loaded by the C++ model and then run: a granted read of an address answers one cycle later
      with the bits that the model wrote there last, changed by the writes granted since. */
  lemma LoadThenRun(m: Layout, c: Config, net: BitVec -> BitVec, cipher: ScrambleData.Cipher, p: R.Params,
                    start: seq<BitVec>, writes: seq<WordWrite>, run: seq<R.State>, ins: seq<R.In>,
                    m0: BitVec -> BitVec, k: nat, a: nat)
    requires SameMemory(m, c, net, cipher, p) && |start| == c.size
    requires Shaped(m, start, c.width32) && WritesFit(writes, c.size, c.width32)
    requires R.IsRun(p, run, ins) && k < |ins|
    requires HoldsArray(run[0], c.addrWidth, After(m, start, writes, |writes|))
    requires a < c.size && m.phys(a) < c.size && ins[k].addr == ToBits(a, c.addrWidth) && R.ReadEn(ins[k])
    requires m0(ins[k].addr) == LatestBits(m, start, writes, |writes|, a)
    ensures run[k + 1].rvalid
    ensures R.RdataOut(p, run[k + 1]) == R.PlainMemory(p, m0, ins[..k], ins[k].addr)
  {
    R.RunInv(p, run, ins, 0);
    LoadedPlain(m, c, net, cipher, p, start, writes, run[0], a);
    R.ReadsReturnLatestWrites(p, m0, run, ins, k);
  }

  lemma LoadedPlain(m: Layout, c: Config, net: BitVec -> BitVec, cipher: ScrambleData.Cipher, p: R.Params,
                    start: seq<BitVec>, writes: seq<WordWrite>, s: R.State, a: nat)
    requires SameMemory(m, c, net, cipher, p) && |start| == c.size && a < c.size && m.phys(a) < c.size
    requires Shaped(m, start, c.width32) && WritesFit(writes, c.size, c.width32)
    requires R.Inv(p, s) && HoldsArray(s, c.addrWidth, After(m, start, writes, |writes|))
    requires !Outstanding(s, ToBits(a, c.addrWidth))
    ensures R.Plain(p, s, ToBits(a, c.addrWidth)) == LatestBits(m, start, writes, |writes|, a)
  {
    AddrNetworkPermutes(net, c.AddrKey());
    LayoutInjective(m, c, net, cipher);
    AfterBits(m, start, writes, |writes|, c.size, c.width32, a);
    PlainAgrees(m, c, net, cipher, p, s, After(m, start, writes, |writes|), a);
  }

  /** The RAM is run and then read by the C++ model: at every address without an outstanding write the
      model reads the words that the plain memory holds after the granted writes. */
  lemma RunThenView(m: Layout, c: Config, net: BitVec -> BitVec, cipher: ScrambleData.Cipher, p: R.Params,
                    mem: seq<BitVec>, run: seq<R.State>, ins: seq<R.In>, m0: BitVec -> BitVec, k: nat, a: nat)
    requires SameMemory(m, c, net, cipher, p) && R.IsRun(p, run, ins) && k < |run|
    requires |mem| == c.size && Shaped(m, mem, c.width32) && HoldsArray(run[k], c.addrWidth, mem)
    requires a < c.size && m.phys(a) < c.size && !Outstanding(run[k], ToBits(a, c.addrWidth))
    requires StartsAs(p, run[0], ToBits(a, c.addrWidth), m0)
    ensures var x := R.PlainMemory(p, m0, ins[..k], ToBits(a, c.addrWidth));
            |x| == WORD_BITS * c.width32 && View(m, mem, c.width32, a) == Unpacked(x, c.width32)
  {
    R.RunInv(p, run, ins, k);
    R.RunIsPlainMemory(p, m0, run, ins, k, ToBits(a, c.addrWidth));
    PlainAgrees(m, c, net, cipher, p, run[k], mem, a);
  }
}
