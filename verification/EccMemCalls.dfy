/** Sequences of calls on an ECC memory area: what is read afterwards is what the calls last wrote. */
module EccMemCalls {
  import opened Bits
  import opened ByteVectors
  import opened EccPacking
  import opened ScrambledEccMem
  import ScrambleData

  /** A call that writes: WriteWithIntegrity or Write. */
  datatype Call = WriteWords(off: nat, words: seq<EccWord>) | WriteBytes(off: nat, bytes: Vec)

  /** What the two methods demand of their callers. */
  predicate Legal(c: Config, x: Call)
    requires c.Valid()
  {
    match x
    case WriteWords(off, words) => |words| % c.width32 == 0 && off + |words| / c.width32 <= c.size
    case WriteBytes(off, bytes) => |bytes| % (4 * c.width32) == 0 && off + |bytes| / (4 * c.width32) <= c.size
  }

  /** The memory words that a call writes, in order. */
  function WritesOf(x: Call, n: nat): seq<WordWrite>
    requires n > 0
  {
    match x
    case WriteWords(off, words) => WordWrites(off, words, n)
    case WriteBytes(off, bytes) => ByteWrites(off, bytes, n)
  }

  function AllWrites(calls: seq<Call>, n: nat): seq<WordWrite>
    requires n > 0
  {
    if calls == [] then []
    else AllWrites(calls[..|calls| - 1], n) + WritesOf(calls[|calls| - 1], n)
  }

  /** The words of k addresses from off on, as some writes leave them. */
  function LatestFrom(m: Layout, start: seq<BitVec>, writes: seq<WordWrite>, n: nat, off: nat, k: nat): seq<EccWord> {
    if k == 0 then []
    else
      LatestFrom(m, start, writes, n, off, k - 1)
      + Latest(writes, |writes|, off + k - 1, View(m, start, n, off + k - 1))
  }

  // ---------------------------------------------------------------- writes one after the other

  /** Later writes do not matter to the first ones. */
  lemma {:induction false} AfterPrefix(m: Layout, mem: seq<BitVec>, v: seq<WordWrite>, w: seq<WordWrite>, k: nat)
    requires k <= |v|
    ensures After(m, mem, v + w, k) == After(m, mem, v, k)
    decreases k
  {
    if k > 0 {
      AfterPrefix(m, mem, v, w, k - 1);
      assert (v + w)[k - 1] == v[k - 1];
    }
  }

  /** Writes after writes are the writes of both. */
  lemma {:induction false} AfterCat(m: Layout, mem: seq<BitVec>, v: seq<WordWrite>, w: seq<WordWrite>, k: nat)
    requires k <= |w|
    ensures After(m, mem, v + w, |v| + k) == After(m, After(m, mem, v, |v|), w, k)
    decreases k
  {
    if k == 0 {
      AfterPrefix(m, mem, v, w, |v|);
    } else {
      AfterCat(m, mem, v, w, k - 1);
      assert (v + w)[|v| + k - 1] == w[k - 1];
    }
  }

  lemma CallFits(c: Config, x: Call)
    requires c.Valid() && Legal(c, x)
    ensures WritesFit(WritesOf(x, c.width32), c.size, c.width32)
  {
    var n, writes := c.width32, WritesOf(x, c.width32);
    match x
    case WriteWords(off, words) =>
      WordWritesRight(off, words, n);
      forall i | 0 <= i < |writes| ensures writes[i].addr < c.size && |writes[i].words| == n {
        assert IsWordWrite(off, words, n, i, writes[i]);
      }
    case WriteBytes(off, bytes) =>
      ByteWritesRight(off, bytes, n);
      forall i | 0 <= i < |writes| ensures writes[i].addr < c.size && |writes[i].words| == n {
        assert IsByteWrite(off, bytes, n, i, writes[i]);
      }
  }

  lemma {:induction false} CallsFit(c: Config, calls: seq<Call>)
    requires c.Valid() && forall i | 0 <= i < |calls| :: Legal(c, calls[i])
    ensures WritesFit(AllWrites(calls, c.width32), c.size, c.width32)
    decreases |calls|
  {
    if calls != [] {
      var last := |calls| - 1;
      CallsFit(c, calls[..last]);
      CallFits(c, calls[last]);
    }
  }

  /** Where every address reads its latest words, so does a range of them. */
  lemma {:induction false} ViewsAreLatest(m: Layout, start: seq<BitVec>, mem: seq<BitVec>, writes: seq<WordWrite>,
                                          n: nat, off: nat, k: nat)
    requires forall a | off <= a < off + k ::
               View(m, mem, n, a) == Latest(writes, |writes|, a, View(m, start, n, a))
    ensures Views(m, mem, n, off, k) == LatestFrom(m, start, writes, n, off, k)
    decreases k
  {
    if k > 0 { ViewsAreLatest(m, start, mem, writes, n, off, k - 1); }
  }

  // ---------------------------------------------------------------- the calls

  /** One call, in a memory in which no access can fall outside, does all its writes. */
  method Perform(area: EccMemArea, x: Call, j: nat)
    requires area.Valid() && Legal(area.config, x) && NeverOutside(area.config, j)
    modifies area`mem
    ensures area.Valid()
    ensures var writes := WritesOf(x, area.config.width32);
            area.mem == After(area.layout, old(area.mem), writes, |writes|)
  {
    NothingRefused(area.layout, area.config, area.net, area.cipher, j);
    match x
    case WriteWords(off, words) =>
      AllAccepted(area.layout, area.config.size, off, |words| / area.config.width32);
      var done := area.WriteWithIntegrity(off, words);
    case WriteBytes(off, bytes) =>
      AllAccepted(area.layout, area.config.size, off, |bytes| / (4 * area.config.width32));
      var done := area.Write(off, bytes);
  }

  lemma NothingRefused(m: Layout, c: Config, net: BitVec -> BitVec, cipher: ScrambleData.Cipher, j: nat)
    requires c.Valid() && IsLayout(m, c, net, cipher) && ScrambleData.IsAddrNetwork(net, c.AddrKey())
    requires NeverOutside(c, j)
    ensures forall a: nat | a < c.size :: m.phys(a) < c.size
  {
    AddrNetworkPermutes(net, c.AddrKey());
    forall a: nat | a < c.size ensures m.phys(a) < c.size {
      assert m.phys(a) == PhysOf(c, net, a);
      if c.scrambled { PowerOfTwoInRange(c, net, j, a); }
    }
  }

  /** The memory is as the calls leave it. */
  ghost predicate LeftBy(m: Layout, start: seq<BitVec>, calls: seq<Call>, n: nat, mem: seq<BitVec>)
    requires n > 0
  {
    mem == After(m, start, AllWrites(calls, n), |AllWrites(calls, n)|)
  }

  lemma OneMoreCall(m: Layout, start: seq<BitVec>, calls: seq<Call>, i: nat, n: nat, mem: seq<BitVec>)
    requires n > 0 && i < |calls| && LeftBy(m, start, calls[..i], n, mem)
    ensures var writes := WritesOf(calls[i], n); LeftBy(m, start, calls[..i + 1], n, After(m, mem, writes, |writes|))
  {
    var before, writes := AllWrites(calls[..i], n), WritesOf(calls[i], n);
    AfterCat(m, start, before, writes, |writes|);
    assert calls[..i + 1][..i] == calls[..i];
    assert AllWrites(calls[..i + 1], n) == before + writes;
  }

  /** Any calls one after the other. */
  method PerformAll(area: EccMemArea, calls: seq<Call>, j: nat)
    requires area.Valid() && NeverOutside(area.config, j)
    requires forall i | 0 <= i < |calls| :: Legal(area.config, calls[i])
    modifies area`mem
    ensures area.Valid()
    ensures LeftBy(area.layout, old(area.mem), calls, area.config.width32, area.mem)
  {
    ghost var start, n := area.mem, area.config.width32;
    for i := 0 to |calls|
      invariant area.Valid() && LeftBy(area.layout, start, calls[..i], n, area.mem)
    {
      OneMoreCall(area.layout, start, calls, i, n, area.mem);
      Perform(area, calls[i], j);
    }
    assert calls[..|calls|] == calls;
  }

  /** After any sequence of Write and WriteWithIntegrity calls on a memory that is not scrambled or of 2^j
      words, j at least one, ReadWithIntegrity succeeds and returns for each address the words last
      written to it with their validity flags, or those there at the start. */
  method WriteThenRead(area: EccMemArea, calls: seq<Call>, wordOffset: nat, numWords: nat, j: nat)
    returns (ok: bool, ret: seq<EccWord>)
    requires area.Valid() && NeverOutside(area.config, j) && wordOffset + numWords <= area.config.size
    requires forall i | 0 <= i < |calls| :: Legal(area.config, calls[i])
    modifies area`mem
    ensures area.Valid() && ok
    ensures var n := area.config.width32;
            ret == LatestFrom(area.layout, old(area.mem), AllWrites(calls, n), n, wordOffset, numWords)
  {
    ghost var start, c, m := area.mem, area.config, area.layout;
    ghost var writes := AllWrites(calls, c.width32);
    PerformAll(area, calls, j);
    NothingRefused(m, c, area.net, area.cipher, j);
    AllAccepted(m, c.size, wordOffset, numWords);
    CallsFit(c, calls);
    forall a: nat | a < c.size
      ensures View(m, area.mem, c.width32, a) == Latest(writes, |writes|, a, View(m, start, c.width32, a))
    {
      MemoryRemembers(m, c, area.net, area.cipher, start, writes, j, a);
    }
    ok, ret := area.ReadWithIntegrity(wordOffset, numWords);
    ViewsAreLatest(m, start, area.mem, writes, c.width32, wordOffset, numWords);
  }
}
