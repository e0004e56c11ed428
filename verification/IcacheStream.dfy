/** End to end: with a fixed instruction memory and no bus errors, the cache hands the core
    exactly the instruction stream of that memory, whatever the pattern of branches, hits,
    misses, stalls, grants, responses, invalidations and ECC events. */
module IcacheStream {
  import opened IcacheTypes
  import opened Icache
  import FB = FillBuffers
  import AM = AgeMatrix
  import BO = BusOrder
  import AL = Aligner
  import IV = IcacheInvalidation

  type Memory = WordAddr -> Word

  /** Responses carry the memory word of the oldest outstanding request. */
  predicate MemoryAnswers(c: Cfg, mem: Memory, s: State, i: In) {
    && LegalIn(c, s, i)
    && (i.rvalid ==> i.rdata == mem(s.queue[0].addr) && !i.rerr)
  }

  function MemLine(c: Cfg, mem: Memory, line: nat): (d: seq<Word>)
    ensures |d| == c.beats
  {
    seq(c.beats, k requires 0 <= k < c.beats => mem(WordAddr(line, k)))
  }

  // ---------------------------------------------------------------- invariants

  /** Whatever the cache would hit on is the memory's line. */
  ghost predicate RamsCoherent(c: Cfg, mem: Memory, s: State)
    requires Shape(c, s)
  {
    forall w: nat, line: nat | w < c.ways
      && s.tags[w][Index(c, line)].Valid? && s.tags[w][Index(c, line)].tag == Tag(c, line) ::
      s.data[w][Index(c, line)] == MemLine(c, mem, line)
  }

  predicate Ic1Coherent(c: Cfg, mem: Memory, s: State)
    requires Shape(c, s)
  {
    s.bufs.lookupValid ==>
      && (forall w | 0 <= w < c.ways && TagMatch(c, s, w) ::
            s.rdData[w] == MemLine(c, mem, s.ic1Line))
      && (forall f | f in s.bufs.inIc1 && f < c.numFb :: s.bufs.fb[f].addr.line == s.ic1Line)
  }

  /** The number of the request that fetches beat k of the buffer's line. */
  function Slot(c: Cfg, b: FB.FillBuffer, k: nat): int {
    if k >= b.addr.off then k - b.addr.off else k + c.beats - b.addr.off
  }

  /** The data register is right: the whole line after a hit, else every beat received. */
  predicate DataRight(c: Cfg, mem: Memory, b: FB.FillBuffer)
    requires |b.data| == c.beats
  {
    && (b.hit ==> b.data == MemLine(c, mem, b.addr.line))
    && (!b.hit ==> forall k | 0 <= k < c.beats && Slot(c, b, k) < b.rvdCnt ::
          b.data[k] == mem(WordAddr(b.addr.line, k)))
  }

  /** Output never runs ahead of the beats received, unless the line was hit. */
  predicate OutBehind(b: FB.FillBuffer) {
    b.busy && !b.hit ==> b.outCnt <= b.addr.off + b.rvdCnt
  }

  /** A busy buffer holds the beats it has received, or the whole line after a hit, and is never
      asked for more. */
  predicate BufferCoherent(c: Cfg, mem: Memory, b: FB.FillBuffer)
    requires |b.data| == c.beats
  {
    b.busy ==>
      && b.err == {}
      && b.addr.off < c.beats && b.rvdCnt <= c.beats
      && DataRight(c, mem, b) && OutBehind(b)
  }

  predicate BuffersCoherent(c: Cfg, mem: Memory, s: State)
    requires Shape(c, s)
  {
    forall f | 0 <= f < c.numFb :: BufferCoherent(c, mem, s.bufs.fb[f])
  }

  /** g directly precedes f among the pending buffers. */
  predicate Adjacent(s: FB.Bufs, p: set<nat>, g: nat, f: nat)
    requires p <= FB.Busy(s)
  {
    && g in p && f in p && g in s.fb[f].older
    && forall h | h in p && h in s.fb[f].older && h != g :: h in s.fb[g].older
  }

  predicate Youngest(s: FB.Bufs, p: set<nat>, f: nat)
    requires p <= FB.Busy(s)
  {
    f in p && forall g | g in p && g != f :: g in s.fb[f].older
  }

  /** The pending buffers cover consecutive lines, from the word cur that the output stage needs
      next up to the prefetch address. */
  predicate Chain(c: Cfg, s: FB.Bufs, prefetch: WordAddr, cur: WordAddr)
    requires FB.Shape(c, s)
  {
    var p := FB.Pending(c, s);
    && (p == {} ==> prefetch == cur)
    && (forall f | f in p && FB.DataSel(c, s, f) ::
          WordAddr(s.fb[f].addr.line, s.fb[f].outCnt) == cur)
    && (forall f, g | f in p && g in p && Adjacent(s, p, g, f) ::
          s.fb[f].addr.line == NextLine(c, s.fb[g].addr.line) && s.fb[f].outCnt == 0)
    && (forall f | f in p && Youngest(s, p, f) ::
          prefetch == WordAddr(NextLine(c, s.fb[f].addr.line), 0))
  }

  ghost predicate StreamInv(c: Cfg, mem: Memory, s: State) {
    && Shape(c, s)
    && BO.BusInv(c, s.bufs, s.queue)
    && IV.InvalInv(c, s)
    && (s.inval == Idle ==> RamsCoherent(c, mem, s))
    && Ic1Coherent(c, mem, s) && BuffersCoherent(c, mem, s)
    && (s.started ==>
          && Chain(c, s.bufs, s.prefetch.word, AL.Cursor(c, s.align))
          && AL.InSync(mem, s.align) && ValidWordAddr(c, s.align.pc.word))
  }

  // ---------------------------------------------------------------- the word delivered

  lemma TopIsLegal(c: Cfg, s: State, i: In)
    requires Shape(c, s) && LegalIn(c, s, i)
    ensures BO.LegalLookup(c, s.bufs, FbIn(c, s, i)) && BO.LegalBus(s.queue, FbIn(c, s, i))
  {
  }

  /** Every way that matches holds the memory's line, so the hit data is that line. */
  lemma HitIsMemory(c: Cfg, mem: Memory, s: State)
    requires StreamInv(c, mem, s) && s.bufs.lookupValid && TagHit(c, s)
    ensures HitData(c, s) == MemLine(c, mem, s.ic1Line)
  {
    var w: nat :| w < c.ways && TagMatch(c, s, w);
    var matching := set w: nat | w < c.ways && TagMatch(c, s, w);
    assert w in matching;
    assert Lowest(c.ways, matching) in matching;
  }

  /** The credited beat is the memory word at the credited place. */
  lemma BeatIsMemory(c: Cfg, mem: Memory, s: State, i: In, f: nat)
    requires StreamInv(c, mem, s) && MemoryAnswers(c, mem, s, i)
    requires f < c.numFb && FB.RvdArb(s.bufs, FbIn(c, s, i), f)
    ensures var b := s.bufs.fb[f];
            i.rdata == mem(WordAddr(b.addr.line, LowBits(c, FB.RvdBeat(c, b)))) && !i.rerr
  {
    BO.ResponseCreditedToIssuer(c, s.bufs, s.queue, FbIn(c, s, i));
  }

  lemma SelectedUnique(c: Cfg, s: State, f: nat, g: nat)
    requires Shape(c, s) && AM.AgeOrder(c, s.bufs)
    requires f in FB.Pending(c, s.bufs) && FB.DataSel(c, s.bufs, f)
    requires g in FB.Pending(c, s.bufs) && FB.DataSel(c, s.bufs, g)
    ensures f == g
  {
    AM.ArbiterPicksOldest(c, s.bufs, FB.Pending(c, s.bufs));
    assert FB.Arb(s.bufs, FB.Pending(c, s.bufs), f) && FB.Arb(s.bufs, FB.Pending(c, s.bufs), g);
  }

  /** A buffer hitting in IC1 can only be selected for output when nothing older is pending. */
  lemma HitSelectedUnique(c: Cfg, mem: Memory, s: State, i: In, f: nat, g: nat)
    requires StreamInv(c, mem, s)
    requires f in FB.Pending(c, s.bufs) && FB.DataSel(c, s.bufs, f)
    requires g < c.numFb && DataHit(c, s, i, g)
    ensures f == g
  {
    assert s.bufs.inIc1 == {g} && s.bufs.fb[g].older == FB.Busy(s.bufs) - {g};
  }

  /** The beat selected by the output address is the beat counted by the buffer. */
  lemma MuxFollowsCursor(c: Cfg, s: State)
    requires Shape(c, s) && ValidWordAddr(c, s.align.pc.word)
    ensures MuxBeat(c, s) == AL.Cursor(c, s.align).off
  {
  }

  /** Source 1: the beat arriving from the bus. */
  lemma BusBeatIsCursor(c: Cfg, mem: Memory, s: State, i: In, f: nat, g: nat)
    requires StreamInv(c, mem, s) && MemoryAnswers(c, mem, s, i) && s.started
    requires f in FB.Pending(c, s.bufs) && FB.DataSel(c, s.bufs, f)
    requires g < c.numFb && DataRvd(c, s, i, g)
    ensures i.rdata == mem(AL.Cursor(c, s.align)) && !i.rerr
  {
    SelectedUnique(c, s, f, g);
    BeatIsMemory(c, mem, s, i, f);
  }

  /** Source 2: the line read from the cache in this cycle. */
  lemma HitBeatIsCursor(c: Cfg, mem: Memory, s: State, i: In, f: nat, g: nat)
    requires StreamInv(c, mem, s) && s.started
    requires f in FB.Pending(c, s.bufs) && FB.DataSel(c, s.bufs, f)
    requires g < c.numFb && DataHit(c, s, i, g)
    ensures HitData(c, s)[AL.Cursor(c, s.align).off] == mem(AL.Cursor(c, s.align))
  {
    HitSelectedUnique(c, mem, s, i, f, g);
    HitIsMemory(c, mem, s);
    assert s.bufs.fb[f].addr.line == s.ic1Line;
  }

  /** A buffer ahead of its output count holds the beat to be output. */
  lemma BufferHoldsBeat(c: Cfg, mem: Memory, b: FB.FillBuffer)
    requires |b.data| == c.beats && BO.Counters(c, b) && BufferCoherent(c, mem, b)
    requires b.busy && b.outCnt < c.beats && (b.hit || FB.RvdBeat(c, b) > b.outCnt)
    ensures b.data[b.outCnt] == mem(WordAddr(b.addr.line, b.outCnt))
  {
    if !b.hit { assert Slot(c, b, b.outCnt) < b.rvdCnt; }
  }

  /** Output that comes neither from a hit nor from the bus comes from the register. */
  lemma RegisterSelected(c: Cfg, mem: Memory, s: State, i: In, f: nat)
    requires Shape(c, s) && f < c.numFb
    requires BO.Counters(c, s.bufs.fb[f]) && BufferCoherent(c, mem, s.bufs.fb[f])
    requires FB.OutArb(c, s.bufs, FbIn0(c, s, i), f)
    requires !DataHit(c, s, i, f) && !DataRvd(c, s, i, f)
    ensures DataReg(c, s, i, f)
  {
  }

  /** Source 3: the data register of the selected fill buffer. */
  lemma RegisterBeatIsCursor(c: Cfg, mem: Memory, s: State, i: In, f: nat)
    requires StreamInv(c, mem, s) && s.started
    requires f < c.numFb && DataReg(c, s, i, f)
    ensures Lowest(c.numFb, DataRegs(c, s, i)) == f
    ensures s.bufs.fb[f].data[AL.Cursor(c, s.align).off] == mem(AL.Cursor(c, s.align))
    ensures s.bufs.fb[f].err == {}
  {
    var b := s.bufs.fb[f];
    assert BO.Counters(c, b) && BufferCoherent(c, mem, b);
    BufferHoldsBeat(c, mem, b);
    assert WordAddr(b.addr.line, b.outCnt) == AL.Cursor(c, s.align);
    forall g | g in DataRegs(c, s, i) ensures g == f { SelectedUnique(c, s, f, g); }
    assert f in DataRegs(c, s, i);
  }

  /** Source 3, whichever buffer is selected. */
  lemma OtherwiseFromRegister(c: Cfg, mem: Memory, s: State, i: In)
    requires StreamInv(c, mem, s) && s.started && DataValid(c, s, i)
    requires !AnyDataRvd(c, s, i) && !AnyDataHit(c, s, i)
    ensures var f := Lowest(c.numFb, DataRegs(c, s, i));
            && f < c.numFb && s.bufs.fb[f].err == {}
            && s.bufs.fb[f].data[AL.Cursor(c, s.align).off] == mem(AL.Cursor(c, s.align))
  {
    var f: nat :| f < c.numFb && FB.OutArb(c, s.bufs, FbIn0(c, s, i), f);
    assert BO.Counters(c, s.bufs.fb[f]) && BufferCoherent(c, mem, s.bufs.fb[f]);
    RegisterSelected(c, mem, s, i, f);
    RegisterBeatIsCursor(c, mem, s, i, f);
  }

  lemma BusSelected(c: Cfg, s: State, i: In)
    requires Shape(c, s) && AnyDataRvd(c, s, i)
    ensures OutputData(c, s, i) == i.rdata && OutputErr(c, s, i) == i.rerr
  {
  }

  lemma HitSelected(c: Cfg, s: State, i: In)
    requires Shape(c, s) && ValidWordAddr(c, s.align.pc.word) && !AnyDataRvd(c, s, i) && AnyDataHit(c, s, i)
    ensures OutputData(c, s, i) == HitData(c, s)[AL.Cursor(c, s.align).off] && !OutputErr(c, s, i)
  {
    MuxFollowsCursor(c, s);
  }

  /** The buffer whose output is valid is pending and selected. */
  lemma ValidOutput(c: Cfg, s: State, i: In) returns (f: nat)
    requires Shape(c, s) && DataValid(c, s, i)
    ensures f in FB.Pending(c, s.bufs) && FB.DataSel(c, s.bufs, f)
  {
    f :| f < c.numFb && FB.OutArb(c, s.bufs, FbIn0(c, s, i), f);
  }

  lemma OutputFromBus(c: Cfg, mem: Memory, s: State, i: In)
    requires StreamInv(c, mem, s) && MemoryAnswers(c, mem, s, i) && s.started && DataValid(c, s, i)
    requires AnyDataRvd(c, s, i)
    ensures OutputData(c, s, i) == mem(AL.Cursor(c, s.align)) && !OutputErr(c, s, i)
  {
    var f := ValidOutput(c, s, i);
    var g: nat :| g < c.numFb && DataRvd(c, s, i, g);
    BusBeatIsCursor(c, mem, s, i, f, g);
    BusSelected(c, s, i);
  }

  lemma OutputFromHit(c: Cfg, mem: Memory, s: State, i: In)
    requires StreamInv(c, mem, s) && s.started && DataValid(c, s, i)
    requires !AnyDataRvd(c, s, i) && AnyDataHit(c, s, i)
    ensures OutputData(c, s, i) == mem(AL.Cursor(c, s.align)) && !OutputErr(c, s, i)
  {
    var f := ValidOutput(c, s, i);
    var g: nat :| g < c.numFb && DataHit(c, s, i, g);
    HitBeatIsCursor(c, mem, s, i, f, g);
    HitSelected(c, s, i);
  }

  lemma OutputFromRegister(c: Cfg, mem: Memory, s: State, i: In)
    requires StreamInv(c, mem, s) && s.started && DataValid(c, s, i)
    requires !AnyDataRvd(c, s, i) && !AnyDataHit(c, s, i)
    ensures OutputData(c, s, i) == mem(AL.Cursor(c, s.align)) && !OutputErr(c, s, i)
  {
    OtherwiseFromRegister(c, mem, s, i);
    MuxFollowsCursor(c, s);
  }

  /** When data is offered to the output stage it is the memory word at the cursor, from whichever
      of the three sources it comes. */
  lemma OutputIsMemory(c: Cfg, mem: Memory, s: State, i: In)
    requires StreamInv(c, mem, s) && MemoryAnswers(c, mem, s, i) && s.started && DataValid(c, s, i)
    ensures OutputData(c, s, i) == mem(AL.Cursor(c, s.align)) && !OutputErr(c, s, i)
  {
    if AnyDataRvd(c, s, i) {
      OutputFromBus(c, mem, s, i);
    } else if AnyDataHit(c, s, i) {
      OutputFromHit(c, mem, s, i);
    } else {
      OutputFromRegister(c, mem, s, i);
    }
  }

  // ---------------------------------------------------------------- preservation: caches and buffers

  /** Only complete, error-free lines fetched from memory are written to the cache. */
  lemma FilledLineIsMemory(c: Cfg, mem: Memory, s: State, i: In)
    requires StreamInv(c, mem, s) && RamWinner(c, s, i) < c.numFb
    ensures var b := s.bufs.fb[RamWinner(c, s, i)]; b.data == MemLine(c, mem, b.addr.line)
  {
    var f := RamWinner(c, s, i);
    var b := s.bufs.fb[f];
    assert f in FB.RamReq(c, s.bufs);
    assert BO.Counters(c, b) && BufferCoherent(c, mem, b);
    forall k | 0 <= k < c.beats ensures b.data[k] == mem(WordAddr(b.addr.line, k)) {
      assert Slot(c, b, k) < b.rvdCnt;
    }
  }

  lemma RamsCoherentKept(c: Cfg, mem: Memory, s: State, i: In)
    requires StreamInv(c, mem, s) && LegalIn(c, s, i) && Next(c, s, i).inval == Idle
    ensures Shape(c, Next(c, s, i)) && RamsCoherent(c, mem, Next(c, s, i))
  {
    NextShape(c, s, i);
    var t := Next(c, s, i);
    if s.inval != Idle {
      IV.IdleEnteredAllInvalid(c, s, i);
      return;
    }
    forall w: nat, line: nat | w < c.ways
      && t.tags[w][Index(c, line)].Valid? && t.tags[w][Index(c, line)].tag == Tag(c, line)
      ensures t.data[w][Index(c, line)] == MemLine(c, mem, line)
    {
      EntryCoherent(c, mem, s, i, w, line);
    }
  }

  lemma EntryCoherent(c: Cfg, mem: Memory, s: State, i: In, w: nat, line: nat)
    requires StreamInv(c, mem, s) && LegalIn(c, s, i) && w < c.ways && s.inval == Idle
    requires var e := NextTags(c, s, i)[w][Index(c, line)]; e.Valid? && e.tag == Tag(c, line)
    ensures NextDataRam(c, s, i)[w][Index(c, line)] == MemLine(c, mem, line)
  {
    if TagWrite(c, s, i) && RamBank(c, s, i, w) && RamIndex(c, s, i) == Index(c, line) {
      LineFromTagAndIndex(c, line, FillLine(c, s, i));
      FilledLineIsMemory(c, mem, s, i);
    }
  }

  lemma Ic1CoherentKept(c: Cfg, mem: Memory, s: State, i: In)
    requires StreamInv(c, mem, s) && LegalIn(c, s, i)
    ensures Shape(c, Next(c, s, i)) && Ic1Coherent(c, mem, Next(c, s, i))
  {
    NextShape(c, s, i);
    var t := Next(c, s, i);
    if LookupActual(c, s, i) {
      forall f | f in t.bufs.inIc1 && f < c.numFb
        ensures t.bufs.fb[f].addr.line == t.ic1Line
      {
        assert t.bufs.fb[f] == FB.NextBuf(c, s.bufs, FbIn(c, s, i), f);
      }
    }
  }

  /** A buffer hit in IC1 receives the memory's line. */
  lemma HitFillsBuffer(c: Cfg, mem: Memory, s: State, i: In, f: nat)
    requires StreamInv(c, mem, s) && f < c.numFb && FB.HitIc1(s.bufs, FbIn(c, s, i), f)
    ensures f in FB.Busy(s.bufs)
    ensures FB.NextData(c, s.bufs, FbIn(c, s, i), f) == MemLine(c, mem, s.bufs.fb[f].addr.line)
  {
    HitIsMemory(c, mem, s);
  }

  /** A credited beat lands in the slot after those already received. */
  lemma BeatFillsSlot(c: Cfg, mem: Memory, s: State, i: In, f: nat, k: nat)
    requires StreamInv(c, mem, s) && MemoryAnswers(c, mem, s, i)
    requires f in FB.Busy(s.bufs) && !FB.HitIc1(s.bufs, FbIn(c, s, i), f) && !s.bufs.fb[f].hit
    requires k < c.beats
    requires Slot(c, s.bufs.fb[f], k) <
             s.bufs.fb[f].rvdCnt + (if FB.RvdArb(s.bufs, FbIn(c, s, i), f) then 1 else 0)
    ensures FB.NextData(c, s.bufs, FbIn(c, s, i), f)[k] == mem(WordAddr(s.bufs.fb[f].addr.line, k))
  {
    assert BO.Counters(c, s.bufs.fb[f]) && BufferCoherent(c, mem, s.bufs.fb[f]);
    if FB.RvdArb(s.bufs, FbIn(c, s, i), f) { BeatIsMemory(c, mem, s, i, f); }
  }

  lemma OutBehindKept(c: Cfg, s: FB.Bufs, x: FB.FbIn, f: nat)
    requires FB.Shape(c, s) && |x.hitData| == c.beats && f < c.numFb && x.addr.off < c.beats
    requires BO.Counters(c, s.fb[f]) && OutBehind(s.fb[f])
    requires FB.RvdArb(s, x, f) ==> s.fb[f].rvdCnt < c.beats
    ensures OutBehind(FB.NextBuf(c, s, x, f))
  {
  }

  lemma NoErrorKept(c: Cfg, s: FB.Bufs, x: FB.FbIn, f: nat)
    requires FB.Shape(c, s) && |x.hitData| == c.beats && f < c.numFb
    requires s.fb[f].busy ==> s.fb[f].err == {}
    requires FB.RvdArb(s, x, f) ==> !x.rerr
    ensures var b := FB.NextBuf(c, s, x, f); b.busy ==> b.err == {}
  {
  }

  /** The data register of a buffer that stays busy, or is allocated, is right after the edge. */
  lemma DataKept(c: Cfg, mem: Memory, s: State, i: In, f: nat)
    requires StreamInv(c, mem, s) && MemoryAnswers(c, mem, s, i) && f in FB.Busy(s.bufs)
    ensures DataRight(c, mem, FB.NextBuf(c, s.bufs, FbIn(c, s, i), f))
  {
    var x := FbIn(c, s, i);
    var b, b' := s.bufs.fb[f], FB.NextBuf(c, s.bufs, x, f);
    assert BO.Counters(c, b) && BufferCoherent(c, mem, b);
    if FB.HitIc1(s.bufs, x, f) {
      HitFillsBuffer(c, mem, s, i, f);
    } else if !b.hit {
      forall k | 0 <= k < c.beats && Slot(c, b', k) < b'.rvdCnt
        ensures b'.data[k] == mem(WordAddr(b'.addr.line, k))
      {
        BeatFillsSlot(c, mem, s, i, f, k);
      }
    }
  }

  lemma Assemble(c: Cfg, mem: Memory, b: FB.FillBuffer)
    requires |b.data| == c.beats && BO.Counters(c, b) && OutBehind(b)
    requires b.busy ==> b.err == {} && DataRight(c, mem, b)
    ensures BufferCoherent(c, mem, b)
  {
  }

  lemma CountersKept(c: Cfg, mem: Memory, s: State, i: In, f: nat)
    requires StreamInv(c, mem, s) && MemoryAnswers(c, mem, s, i) && f < c.numFb
    ensures var b := FB.NextBuf(c, s.bufs, FbIn(c, s, i), f);
            BO.Counters(c, b) && OutBehind(b) && (b.busy ==> b.err == {})
  {
    var x := FbIn(c, s, i);
    assert BO.Counters(c, s.bufs.fb[f]) && BufferCoherent(c, mem, s.bufs.fb[f]);
    TopIsLegal(c, s, i);
    if FB.RvdArb(s.bufs, x, f) {
      BeatIsMemory(c, mem, s, i, f);
      BO.ResponseCreditedToIssuer(c, s.bufs, s.queue, x);
    }
    OutBehindKept(c, s.bufs, x, f);
    NoErrorKept(c, s.bufs, x, f);
    BO.CountersKept(c, s.bufs, s.queue, x, f);
    assert FB.Next(c, s.bufs, x).fb[f] == FB.NextBuf(c, s.bufs, x, f);
  }

  lemma BufferCoherentKept(c: Cfg, mem: Memory, s: State, i: In, f: nat)
    requires StreamInv(c, mem, s) && MemoryAnswers(c, mem, s, i) && f < c.numFb
    ensures BufferCoherent(c, mem, FB.NextBuf(c, s.bufs, FbIn(c, s, i), f))
  {
    var b := FB.NextBuf(c, s.bufs, FbIn(c, s, i), f);
    CountersKept(c, mem, s, i, f);
    if f in FB.Busy(s.bufs) {
      DataKept(c, mem, s, i, f);
    } else {
      FreeBufferNotHit(c, mem, s, i, f);
      assert b.busy ==> DataRight(c, mem, b);
    }
    Assemble(c, mem, b);
  }

  lemma FreeBufferNotHit(c: Cfg, mem: Memory, s: State, i: In, f: nat)
    requires StreamInv(c, mem, s) && f < c.numFb && !s.bufs.fb[f].busy
    ensures !FB.HitIc1(s.bufs, FbIn(c, s, i), f)
  {
  }

  // ---------------------------------------------------------------- preservation: the chain of lines

  /** Buffer f gives a beat to the output stage. */
  predicate Outputs(c: Cfg, s: FB.Bufs, x: FB.FbIn, f: nat)
    requires f < |s.fb|
  {
    FB.OutArb(c, s, x, f) && x.outReady
  }

  /** Buffer f gives its last beat. */
  predicate Finishes(c: Cfg, s: FB.Bufs, x: FB.FbIn, f: nat)
    requires f < |s.fb|
  {
    Outputs(c, s, x, f) && s.fb[f].outCnt + 1 == c.beats
  }

  /** How the pending buffers change in a cycle without a branch. */
  lemma PendingMoves(c: Cfg, s: FB.Bufs, x: FB.FbIn, f: nat)
    requires BO.BufsInv(c, s) && |x.hitData| == c.beats && ValidWordAddr(c, x.addr)
    requires !x.branch && f < c.numFb
    ensures var t := FB.Next(c, s, x);
            && (f in FB.Pending(c, t) <==>
                  FB.Alloc(s, x, f) || (f in FB.Pending(c, s) && !Finishes(c, s, x, f)))
            && (f in FB.Pending(c, s) ==>
                  && f !in FB.Done(c, s, x) && !FB.Alloc(s, x, f)
                  && t.fb[f].addr == s.fb[f].addr
                  && t.fb[f].older == s.fb[f].older - FB.Done(c, s, x)
                  && t.fb[f].outCnt == s.fb[f].outCnt + if Outputs(c, s, x, f) then 1 else 0)
            && (FB.Alloc(s, x, f) ==>
                  t.fb[f].addr == x.addr && t.fb[f].outCnt == x.addr.off
                  && t.fb[f].older == FB.Busy(s) - FB.Done(c, s, x) && f !in FB.Busy(s))
  {
    assert FB.Next(c, s, x).fb[f] == FB.NextBuf(c, s, x, f);
    assert BO.Counters(c, s.fb[f]);
  }

  /** The facts of PendingMoves for all buffers, which is all that the chain depends on. */
  predicate MembersMove(c: Cfg, s: FB.Bufs, x: FB.FbIn, t: FB.Bufs)
    requires FB.Shape(c, s) && FB.Shape(c, t)
  {
    forall f | 0 <= f < c.numFb ::
      f in FB.Pending(c, t) <==>
        FB.Alloc(s, x, f) || (f in FB.Pending(c, s) && !Finishes(c, s, x, f))
  }

  predicate CountsMove(c: Cfg, s: FB.Bufs, x: FB.FbIn, t: FB.Bufs)
    requires FB.Shape(c, s) && FB.Shape(c, t)
  {
    forall f | f in FB.Pending(c, s) ::
      t.fb[f].addr == s.fb[f].addr
      && t.fb[f].outCnt == s.fb[f].outCnt + (if Outputs(c, s, x, f) then 1 else 0)
  }

  predicate AgesMove(c: Cfg, s: FB.Bufs, x: FB.FbIn, t: FB.Bufs)
    requires FB.Shape(c, s) && FB.Shape(c, t)
  {
    forall f, g | f in FB.Pending(c, s) && g in FB.Pending(c, s) ::
      g in t.fb[f].older <==> g in s.fb[f].older
  }

  predicate NewcomerLast(c: Cfg, s: FB.Bufs, x: FB.FbIn, t: FB.Bufs)
    requires FB.Shape(c, s) && FB.Shape(c, t)
  {
    forall n | 0 <= n < c.numFb && FB.Alloc(s, x, n) ::
      && t.fb[n].addr == x.addr && t.fb[n].outCnt == x.addr.off
      && n !in FB.Pending(c, s) && n !in t.fb[n].older
      && forall f | f in FB.Pending(c, s) :: f in t.fb[n].older && n !in t.fb[f].older
  }

  lemma MembersMoveHolds(c: Cfg, s: FB.Bufs, x: FB.FbIn)
    requires BO.BufsInv(c, s) && |x.hitData| == c.beats && ValidWordAddr(c, x.addr) && !x.branch
    ensures MembersMove(c, s, x, FB.Next(c, s, x)) && CountsMove(c, s, x, FB.Next(c, s, x))
  {
    var t := FB.Next(c, s, x);
    forall f | 0 <= f < c.numFb
      ensures f in FB.Pending(c, t) <==>
                FB.Alloc(s, x, f) || (f in FB.Pending(c, s) && !Finishes(c, s, x, f))
    {
      PendingMoves(c, s, x, f);
    }
    forall f | f in FB.Pending(c, s)
      ensures t.fb[f].addr == s.fb[f].addr
              && t.fb[f].outCnt == s.fb[f].outCnt + (if Outputs(c, s, x, f) then 1 else 0)
    {
      PendingMoves(c, s, x, f);
    }
  }

  lemma AgesMoveHolds(c: Cfg, s: FB.Bufs, x: FB.FbIn)
    requires BO.BufsInv(c, s) && |x.hitData| == c.beats && ValidWordAddr(c, x.addr) && !x.branch
    ensures AgesMove(c, s, x, FB.Next(c, s, x)) && NewcomerLast(c, s, x, FB.Next(c, s, x))
  {
    var t := FB.Next(c, s, x);
    forall f, g | f in FB.Pending(c, s) && g in FB.Pending(c, s)
      ensures g in t.fb[f].older <==> g in s.fb[f].older
    {
      PendingMoves(c, s, x, f);
      PendingMoves(c, s, x, g);
    }
    forall n | 0 <= n < c.numFb && FB.Alloc(s, x, n)
      ensures t.fb[n].addr == x.addr && t.fb[n].outCnt == x.addr.off
      ensures n !in FB.Pending(c, s) && n !in t.fb[n].older
      ensures forall f | f in FB.Pending(c, s) :: f in t.fb[n].older && n !in t.fb[f].older
    {
      PendingMoves(c, s, x, n);
      forall f | f in FB.Pending(c, s) ensures f in t.fb[n].older && n !in t.fb[f].older {
        PendingMoves(c, s, x, f);
      }
    }
  }

  /** The cursor moves on one word exactly when some buffer gives a beat; a lookup takes its
      address from the prefetch counter and moves that on one line. */
  predicate Advance(c: Cfg, s: FB.Bufs, x: FB.FbIn,
                    pre: WordAddr, cur: WordAddr, pre': WordAddr, cur': WordAddr)
    requires FB.Shape(c, s)
  {
    && cur' == (if exists f | f in FB.Pending(c, s) :: Outputs(c, s, x, f)
                then NextWord(c, cur) else cur)
    && pre' == (if x.grant then WordAddr(NextLine(c, x.addr.line), 0) else pre)
    && (x.grant ==> x.addr == pre && exists n | 0 <= n < c.numFb :: FB.Alloc(s, x, n))
  }

  ghost predicate ChainStep(c: Cfg, s: FB.Bufs, x: FB.FbIn, t: FB.Bufs,
                            pre: WordAddr, cur: WordAddr, pre': WordAddr, cur': WordAddr)
  {
    && FB.Shape(c, s) && FB.Shape(c, t) && AM.AgeOrder(c, s) && AM.AgeOrder(c, t)
    && MembersMove(c, s, x, t) && CountsMove(c, s, x, t) && AgesMove(c, s, x, t)
    && NewcomerLast(c, s, x, t)
    && Advance(c, s, x, pre, cur, pre', cur') && Chain(c, s, pre, cur)
  }

  /** Only the oldest pending buffer can output. */
  lemma OutputsIsOldest(c: Cfg, s: FB.Bufs, x: FB.FbIn, m: nat, f: nat)
    requires FB.Shape(c, s) && AM.AgeOrder(c, s)
    requires m < c.numFb && Outputs(c, s, x, m) && f in FB.Pending(c, s) && f != m
    ensures m in FB.Pending(c, s) && FB.DataSel(c, s, m) && m in s.fb[f].older && !Outputs(c, s, x, f)
  {
    AM.ArbiterPicksOldest(c, s, FB.Pending(c, s));
    assert FB.Arb(s, FB.Pending(c, s), m);
  }

  /** When the oldest pending buffer gives its last beat, the cursor moves to the next line. */
  lemma FinishMovesCursor(c: Cfg, s: FB.Bufs, x: FB.FbIn, t: FB.Bufs, pre: WordAddr, cur: WordAddr,
                          pre': WordAddr, cur': WordAddr, m: nat)
    requires ChainStep(c, s, x, t, pre, cur, pre', cur') && m < c.numFb && Finishes(c, s, x, m)
    ensures m in FB.Pending(c, s) && cur' == WordAddr(NextLine(c, s.fb[m].addr.line), 0)
  {
    assert m in FB.Pending(c, s) && FB.DataSel(c, s, m);
  }

  /** The only pending buffer: the prefetch counter is on the following line. */
  lemma LastFinishes(c: Cfg, s: FB.Bufs, x: FB.FbIn, t: FB.Bufs, pre: WordAddr, cur: WordAddr,
                     pre': WordAddr, cur': WordAddr)
    requires ChainStep(c, s, x, t, pre, cur, pre', cur')
    requires forall f | f in FB.Pending(c, s) :: Finishes(c, s, x, f)
    ensures pre == cur'
  {
    if m :| m in FB.Pending(c, s) {
      forall f | f in FB.Pending(c, s) ensures f == m {
        if f != m { OutputsIsOldest(c, s, x, m, f); assert false; }
      }
      assert Youngest(s, FB.Pending(c, s), m);
      FinishMovesCursor(c, s, x, t, pre, cur, pre', cur', m);
    }
  }

  lemma ChainHeadKept(c: Cfg, s: FB.Bufs, x: FB.FbIn, t: FB.Bufs, pre: WordAddr, cur: WordAddr,
                      pre': WordAddr, cur': WordAddr, f: nat)
    requires ChainStep(c, s, x, t, pre, cur, pre', cur')
    requires f in FB.Pending(c, t) && FB.DataSel(c, t, f)
    ensures WordAddr(t.fb[f].addr.line, t.fb[f].outCnt) == cur'
  {
    var p := FB.Pending(c, s);
    if f !in p {
      forall g | g in p ensures Finishes(c, s, x, g) {
        assert g in t.fb[f].older;
      }
      LastFinishes(c, s, x, t, pre, cur, pre', cur');
    } else if FB.DataSel(c, s, f) {
      forall g | g in p && Outputs(c, s, x, g) ensures g == f {
        if g != f { OutputsIsOldest(c, s, x, g, f); assert false; }
      }
    } else {
      var m :| m in p * s.fb[f].older;
      assert m in t.fb[f].older && Finishes(c, s, x, m);
      forall h | h in p && h in s.fb[f].older ensures h == m {
        assert h in t.fb[f].older && Finishes(c, s, x, h);
        if h != m { OutputsIsOldest(c, s, x, m, h); assert false; }
      }
      assert Adjacent(s, p, m, f);
      FinishMovesCursor(c, s, x, t, pre, cur, pre', cur', m);
      OutputsIsOldest(c, s, x, m, f);
    }
  }

  /** Neighbours among the survivors were neighbours before: only the oldest buffer leaves. */
  lemma NeighboursBefore(c: Cfg, s: FB.Bufs, x: FB.FbIn, t: FB.Bufs, pre: WordAddr, cur: WordAddr,
                         pre': WordAddr, cur': WordAddr, g: nat, f: nat)
    requires ChainStep(c, s, x, t, pre, cur, pre', cur')
    requires g in FB.Pending(c, s) && f in FB.Pending(c, s)
    requires f in FB.Pending(c, t) && g in FB.Pending(c, t)
    requires Adjacent(t, FB.Pending(c, t), g, f)
    ensures Adjacent(s, FB.Pending(c, s), g, f) && !Outputs(c, s, x, f)
  {
    var p := FB.Pending(c, s);
    forall h | h in p && h in s.fb[f].older && h != g ensures h in s.fb[g].older {
      if h !in FB.Pending(c, t) { OutputsIsOldest(c, s, x, h, g); }
      else { assert h in t.fb[f].older; }
    }
    if Outputs(c, s, x, f) { OutputsIsOldest(c, s, x, f, g); assert false; }
  }

  lemma YoungestBefore(c: Cfg, s: FB.Bufs, x: FB.FbIn, t: FB.Bufs, pre: WordAddr, cur: WordAddr,
                       pre': WordAddr, cur': WordAddr, g: nat)
    requires ChainStep(c, s, x, t, pre, cur, pre', cur')
    requires g in FB.Pending(c, s) && g in FB.Pending(c, t)
    requires forall h | h in FB.Pending(c, s) && h in FB.Pending(c, t) && h != g :: h in t.fb[g].older
    ensures pre == WordAddr(NextLine(c, s.fb[g].addr.line), 0)
  {
    forall h | h in FB.Pending(c, s) && h != g ensures h in s.fb[g].older {
      if h !in FB.Pending(c, t) { OutputsIsOldest(c, s, x, h, g); }
    }
    assert Youngest(s, FB.Pending(c, s), g);
  }

  lemma ChainLinkKept(c: Cfg, s: FB.Bufs, x: FB.FbIn, t: FB.Bufs, pre: WordAddr, cur: WordAddr,
                      pre': WordAddr, cur': WordAddr, g: nat, f: nat)
    requires ChainStep(c, s, x, t, pre, cur, pre', cur')
    requires f in FB.Pending(c, t) && g in FB.Pending(c, t)
    requires Adjacent(t, FB.Pending(c, t), g, f)
    ensures t.fb[f].addr.line == NextLine(c, t.fb[g].addr.line) && t.fb[f].outCnt == 0
  {
    var p := FB.Pending(c, s);
    if f in p && g in p {
      NeighboursBefore(c, s, x, t, pre, cur, pre', cur', g, f);
    } else if f !in p && g in p {
      forall h | h in p && h in FB.Pending(c, t) && h != g ensures h in t.fb[g].older {
        assert h in t.fb[f].older;
      }
      YoungestBefore(c, s, x, t, pre, cur, pre', cur', g);
    } else {
      if f !in p { AM.AllocUnique(s, f, g); }
      assert false;
    }
  }

  lemma ChainTailKept(c: Cfg, s: FB.Bufs, x: FB.FbIn, t: FB.Bufs, pre: WordAddr, cur: WordAddr,
                      pre': WordAddr, cur': WordAddr, f: nat)
    requires ChainStep(c, s, x, t, pre, cur, pre', cur')
    requires f in FB.Pending(c, t) && Youngest(t, FB.Pending(c, t), f)
    ensures pre' == WordAddr(NextLine(c, t.fb[f].addr.line), 0)
  {
    if f in FB.Pending(c, s) {
      YoungestBefore(c, s, x, t, pre, cur, pre', cur', f);
    }
  }

  /** A cycle without a branch keeps the pending buffers chained. */
  lemma ChainKept(c: Cfg, s: FB.Bufs, x: FB.FbIn, t: FB.Bufs, pre: WordAddr, cur: WordAddr,
                  pre': WordAddr, cur': WordAddr)
    requires ChainStep(c, s, x, t, pre, cur, pre', cur')
    ensures Chain(c, t, pre', cur')
  {
    var p' := FB.Pending(c, t);
    if p' == {} {
      forall f | f in FB.Pending(c, s) ensures Finishes(c, s, x, f) {
        assert f !in p';
      }
      LastFinishes(c, s, x, t, pre, cur, pre', cur');
    }
    forall f | f in p' && FB.DataSel(c, t, f)
      ensures WordAddr(t.fb[f].addr.line, t.fb[f].outCnt) == cur'
    {
      ChainHeadKept(c, s, x, t, pre, cur, pre', cur', f);
    }
    forall f, g | f in p' && g in p' && Adjacent(t, p', g, f)
      ensures t.fb[f].addr.line == NextLine(c, t.fb[g].addr.line) && t.fb[f].outCnt == 0
    {
      ChainLinkKept(c, s, x, t, pre, cur, pre', cur', g, f);
    }
    forall f | f in p' && Youngest(t, p', f)
      ensures pre' == WordAddr(NextLine(c, t.fb[f].addr.line), 0)
    {
      ChainTailKept(c, s, x, t, pre, cur, pre', cur', f);
    }
  }

  /** A branch makes every buffer stale; the chain restarts at the target. */
  lemma ChainRestarts(c: Cfg, s: FB.Bufs, x: FB.FbIn)
    requires FB.Shape(c, s) && |x.hitData| == c.beats && x.branch && ValidWordAddr(c, x.addr)
    requires AM.AgeOrder(c, s)
    ensures x.grant && (exists n | 0 <= n < c.numFb :: FB.Alloc(s, x, n)) ==>
              Chain(c, FB.Next(c, s, x), WordAddr(NextLine(c, x.addr.line), 0), x.addr)
    ensures !x.grant ==> Chain(c, FB.Next(c, s, x), x.addr, x.addr)
  {
    var t := FB.Next(c, s, x);
    AM.AgeOrderKept(c, s, x);
    forall f | f in FB.Pending(c, t)
      ensures FB.Alloc(s, x, f) && t.fb[f].addr == x.addr && t.fb[f].outCnt == x.addr.off
    {
      assert t.fb[f] == FB.NextBuf(c, s, x, f);
    }
    forall f, g | f in FB.Pending(c, t) && g in FB.Pending(c, t) ensures f == g {
      AM.AllocUnique(s, f, g);
    }
    if x.grant && exists n | 0 <= n < c.numFb :: FB.Alloc(s, x, n) {
      var n :| 0 <= n < c.numFb && FB.Alloc(s, x, n);
      assert t.fb[n] == FB.NextBuf(c, s, x, n);
      assert n in FB.Pending(c, t);
    }
  }

  // ---------------------------------------------------------------- whole cycles

  /** data_valid with output_ready is exactly an output grant to some pending buffer. */
  lemma GrantIsOutput(c: Cfg, s: State, i: In)
    requires Shape(c, s)
    ensures (exists f | f in FB.Pending(c, s.bufs) :: Outputs(c, s.bufs, FbIn(c, s, i), f)) <==>
              DataValid(c, s, i) && AL.OutputReady(s.align, AlignIn(c, s, i))
  {
    var x, x0 := FbIn(c, s, i), FbIn0(c, s, i);
    forall f | 0 <= f < c.numFb
      ensures FB.OutArb(c, s.bufs, x, f) == FB.OutArb(c, s.bufs, x0, f)
      ensures FB.OutArb(c, s.bufs, x, f) ==> f in FB.Pending(c, s.bufs)
    {
    }
    if DataValid(c, s, i) && AL.OutputReady(s.align, AlignIn(c, s, i)) {
      var f: nat :| f < c.numFb && FB.OutArb(c, s.bufs, x0, f);
      assert Outputs(c, s.bufs, x, f);
    }
  }

  lemma AllocExists(c: Cfg, s: State, i: In)
    requires Shape(c, s) && LegalIn(c, s, i) && Lookup(c, s, i)
    ensures exists n | 0 <= n < c.numFb :: FB.Alloc(s.bufs, FbIn(c, s, i), n)
  {
    var n := BO.LowestFree(c, s.bufs);
    assert FB.Alloc(s.bufs, FbIn(c, s, i), n);
  }

  /** What the output stage receives in a cycle keeps it in its place in the stream. */
  lemma AlignStep(c: Cfg, mem: Memory, s: State, i: In)
    requires StreamInv(c, mem, s) && MemoryAnswers(c, mem, s, i) && s.started
    ensures AlignIn(c, s, i).dataValid ==>
              AlignIn(c, s, i).data == mem(AL.Cursor(c, s.align)) && !AlignIn(c, s, i).err
  {
    if DataValid(c, s, i) { OutputIsMemory(c, mem, s, i); }
  }

  lemma ChainStepHolds(c: Cfg, mem: Memory, s: State, i: In)
    requires StreamInv(c, mem, s) && MemoryAnswers(c, mem, s, i) && s.started && !i.branch
    ensures ChainStep(c, s.bufs, FbIn(c, s, i), FB.Next(c, s.bufs, FbIn(c, s, i)), s.prefetch.word,
                      AL.Cursor(c, s.align), NextPrefetch(c, s, i).word,
                      AL.Cursor(c, AL.Next(c, s.align, AlignIn(c, s, i))))
  {
    var x := FbIn(c, s, i);
    MembersMoveHolds(c, s.bufs, x);
    AgesMoveHolds(c, s.bufs, x);
    AM.AgeOrderKept(c, s.bufs, x);
    GrantIsOutput(c, s, i);
    AlignStep(c, mem, s, i);
    AL.StepKeepsPlace(c, mem, s.align, AlignIn(c, s, i));
    if Lookup(c, s, i) { AllocExists(c, s, i); }
  }

  lemma ChainNext(c: Cfg, mem: Memory, s: State, i: In)
    requires StreamInv(c, mem, s) && MemoryAnswers(c, mem, s, i) && (s.started || i.branch)
    ensures Chain(c, FB.Next(c, s.bufs, FbIn(c, s, i)), NextPrefetch(c, s, i).word,
                  AL.Cursor(c, AL.Next(c, s.align, AlignIn(c, s, i))))
  {
    var x := FbIn(c, s, i);
    if i.branch {
      if Lookup(c, s, i) { AllocExists(c, s, i); }
      ChainRestarts(c, s.bufs, x);
    } else {
      ChainStepHolds(c, mem, s, i);
      ChainKept(c, s.bufs, x, FB.Next(c, s.bufs, x), s.prefetch.word, AL.Cursor(c, s.align),
                NextPrefetch(c, s, i).word, AL.Cursor(c, AL.Next(c, s.align, AlignIn(c, s, i))));
    }
  }

  lemma SyncNext(c: Cfg, mem: Memory, s: State, i: In)
    requires StreamInv(c, mem, s) && MemoryAnswers(c, mem, s, i) && (s.started || i.branch)
    ensures AL.InSync(mem, AL.Next(c, s.align, AlignIn(c, s, i)))
    ensures ValidWordAddr(c, AL.Next(c, s.align, AlignIn(c, s, i)).pc.word)
  {
    if !i.branch {
      AlignStep(c, mem, s, i);
      AL.StepKeepsPlace(c, mem, s.align, AlignIn(c, s, i));
    }
  }

  /** Every cycle keeps the end-to-end invariant. */
  lemma StreamInvKept(c: Cfg, mem: Memory, s: State, i: In)
    requires StreamInv(c, mem, s) && MemoryAnswers(c, mem, s, i)
    ensures StreamInv(c, mem, Next(c, s, i))
  {
    var t := Next(c, s, i);
    NextShape(c, s, i);
    TopIsLegal(c, s, i);
    BO.BusInvKept(c, s.bufs, s.queue, FbIn(c, s, i));
    IV.InvalInvKept(c, s, i);
    if t.inval == Idle { RamsCoherentKept(c, mem, s, i); }
    Ic1CoherentKept(c, mem, s, i);
    forall f | 0 <= f < c.numFb ensures BufferCoherent(c, mem, t.bufs.fb[f]) {
      BufferCoherentKept(c, mem, s, i, f);
    }
    if t.started {
      ChainNext(c, mem, s, i);
      SyncNext(c, mem, s, i);
    }
  }
}
