/** The fill buffers of ibex_icache.sv: per-buffer registers, the combinational signals derived
    from them and the next-state logic of one clock edge. Bit vectors with one bit per fill
    buffer are sets of buffer numbers. */
module FillBuffers {
  import opened IcacheTypes

  /** The registers of one fill buffer. epoch is a history variable: the number of invalidation
      requests seen before the buffer was allocated. */
  datatype FillBuffer = FillBuffer(
    busy: bool, older: set<nat>, stale: bool, cache: bool, hit: bool,
    extCnt: nat, extHold: bool, extDone: bool, rvdCnt: nat, ramDone: bool, outCnt: nat,
    err: set<nat>, addr: WordAddr, way: nat, data: seq<Word>, epoch: nat)

  /** All fill buffers, with the IC0-to-IC1 registers fill_in_ic1 and lookup_valid_ic1. */
  datatype Bufs = Bufs(fb: seq<FillBuffer>, inIc1: set<nat>, lookupValid: bool)

  /** What the fill buffers see in one cycle. hit is lookup_valid_ic1 & tag_hit_ic1 & ~ecc_err_ic1,
      actual is lookup_actual_ic0, cacheNew is fill_cache_new. */
  datatype FbIn = FbIn(
    grant: bool, actual: bool, addr: WordAddr, branch: bool, gnt: bool, rvalid: bool,
    rdata: Word, rerr: bool, enable: bool, inval: bool, cacheNew: bool,
    hit: bool, hitData: seq<Word>, selWay: nat, fillGrant: bool, outReady: bool, epoch: nat)

  predicate Shape(c: Cfg, s: Bufs) {
    && |s.fb| == c.numFb
    && forall f | 0 <= f < c.numFb :: |s.fb[f].data| == c.beats
  }

  function Busy(s: Bufs): set<nat> {
    set f: nat | f < |s.fb| && s.fb[f].busy
  }

  /** Buffers whose output still belongs to the current instruction stream. */
  function Pending(c: Cfg, s: Bufs): set<nat> {
    set f: nat | f < |s.fb| && s.fb[f].busy && !OutDone(c, s.fb[f]) && !s.fb[f].stale
  }

  predicate OutDone(c: Cfg, b: FillBuffer) {
    b.outCnt >= c.beats
  }

  /** Lowest free buffer. */
  predicate AllocSel(s: Bufs, f: nat)
    requires f < |s.fb|
  {
    !s.fb[f].busy && forall g | 0 <= g < f :: s.fb[g].busy
  }

  predicate Alloc(s: Bufs, i: FbIn, f: nat)
    requires f < |s.fb|
  {
    AllocSel(s, f) && i.grant
  }

  function ExtBeat(c: Cfg, b: FillBuffer): nat {
    Wrap(c, b.addr.off + b.extCnt)
  }

  function RvdBeat(c: Cfg, b: FillBuffer): nat {
    Wrap(c, b.addr.off + b.rvdCnt)
  }

  predicate HitIc1(s: Bufs, i: FbIn, f: nat) {
    i.hit && f in s.inIc1
  }

  predicate ExtDoneD(c: Cfg, s: Bufs, i: FbIn, f: nat)
    requires f < |s.fb|
  {
    var b := s.fb[f];
    && (|| b.extCnt >= c.beats
        || HitIc1(s, i, f) || b.hit
        || (!b.cache && (i.branch || b.stale || ExtBeat(c, b) >= c.beats)))
    && !b.extHold && b.busy
  }

  /** fill_ext_req */
  function ExtReq(c: Cfg, s: Bufs, i: FbIn): set<nat> {
    set f: nat | f < |s.fb| && s.fb[f].busy && !ExtDoneD(c, s, i, f)
  }

  predicate RvdDone(b: FillBuffer) {
    b.extDone && !b.extHold && b.rvdCnt == b.extCnt
  }

  /** fill_rvd_exp */
  function RvdExp(s: Bufs): set<nat> {
    set f: nat | f < |s.fb| && s.fb[f].busy && !RvdDone(s.fb[f])
  }

  /** fill_ram_req */
  function RamReq(c: Cfg, s: Bufs): set<nat> {
    set f: nat | f < |s.fb| && s.fb[f].busy && s.fb[f].rvdCnt >= c.beats && !s.fb[f].hit
                 && s.fb[f].cache && s.fb[f].err == {} && !s.fb[f].ramDone
  }

  /** The age-based arbiter: f requests and no older buffer does. */
  predicate Arb(s: Bufs, req: set<nat>, f: nat)
    requires f < |s.fb|
  {
    f in req && req * s.fb[f].older == {}
  }

  predicate ExtArb(c: Cfg, s: Bufs, i: FbIn, f: nat)
    requires f < |s.fb|
  {
    Arb(s, ExtReq(c, s, i), f)
  }

  predicate RvdArb(s: Bufs, i: FbIn, f: nat)
    requires f < |s.fb|
  {
    i.rvalid && Arb(s, RvdExp(s), f)
  }

  predicate RamArb(c: Cfg, s: Bufs, i: FbIn, f: nat)
    requires f < |s.fb|
  {
    i.fillGrant && Arb(s, RamReq(c, s), f)
  }

  /** fill_data_sel: no older buffer still has output to give. */
  predicate DataSel(c: Cfg, s: Bufs, f: nat)
    requires f < |s.fb|
  {
    Pending(c, s) * s.fb[f].older == {}
  }

  predicate OutReq(c: Cfg, s: Bufs, i: FbIn, f: nat)
    requires f < |s.fb|
  {
    var b := s.fb[f];
    && b.busy && !b.stale && !OutDone(c, b)
    && (HitIc1(s, i, f) || b.hit || RvdBeat(c, b) > b.outCnt || RvdArb(s, i, f))
  }

  predicate OutArb(c: Cfg, s: Bufs, i: FbIn, f: nat)
    requires f < |s.fb|
  {
    OutReq(c, s, i, f) && DataSel(c, s, f)
  }

  predicate FillDone(c: Cfg, s: Bufs, i: FbIn, f: nat)
    requires f < |s.fb|
  {
    var b := s.fb[f];
    && (b.ramDone || b.hit || !b.cache || b.err != {})
    && (OutDone(c, b) || b.stale || i.branch)
    && RvdDone(b)
  }

  function Done(c: Cfg, s: Bufs, i: FbIn): set<nat> {
    set f: nat | f < |s.fb| && FillDone(c, s, i, f)
  }

  /** fill_spec_req, granted or held, for a lookup made in this cycle. */
  predicate SpecReq(c: Cfg, s: Bufs, i: FbIn) {
    (!i.enable || i.branch) && ExtReq(c, s, i) == {}
  }

  predicate DataEn(c: Cfg, s: Bufs, i: FbIn, f: nat, beat: nat)
    requires f < |s.fb|
  {
    || HitIc1(s, i, f)
    || (RvdArb(s, i, f) && !s.fb[f].hit && LowBits(c, RvdBeat(c, s.fb[f])) == beat)
  }

  /** fill_data_q after the edge: hit data, or the incoming beat at its line offset. */
  function NextData(c: Cfg, s: Bufs, i: FbIn, f: nat): (d: seq<Word>)
    requires f < |s.fb| && |s.fb[f].data| == c.beats && |i.hitData| == c.beats
    ensures |d| == c.beats
  {
    seq(c.beats, k requires 0 <= k < c.beats =>
      if !DataEn(c, s, i, f, k) then s.fb[f].data[k]
      else if HitIc1(s, i, f) then i.hitData[k]
      else i.rdata)
  }

  /** The registers of buffer f after the clock edge. */
  function NextBuf(c: Cfg, s: Bufs, i: FbIn, f: nat): FillBuffer
    requires Shape(c, s) && f < c.numFb && |i.hitData| == c.beats
  {
    var b := s.fb[f];
    var alloc := Alloc(s, i, f);
    var data := NextData(c, s, i, f);
    var addr := if alloc then i.addr else b.addr;
    var epoch := if alloc then i.epoch else b.epoch;
    var way := if s.lookupValid && f in s.inIc1 then i.selWay else b.way;
    if alloc || b.busy then
      FillBuffer(
        alloc || (b.busy && !FillDone(c, s, i, f)),
        (if alloc then Busy(s) else b.older) - Done(c, s, i),
        b.busy && (i.branch || b.stale),
        (alloc && i.cacheNew) || (b.cache && b.busy && i.enable && !i.inval),
        HitIc1(s, i, f) || (b.hit && b.busy),
        if alloc then (if SpecReq(c, s, i) && i.gnt then 1 else 0)
        else Bump(c, b.extCnt, ExtArb(c, s, i, f) && i.gnt),
        (alloc && SpecReq(c, s, i) && !i.gnt) || (ExtArb(c, s, i, f) && !i.gnt),
        ExtDoneD(c, s, i, f),
        if alloc then 0 else Bump(c, b.rvdCnt, RvdArb(s, i, f)),
        RamArb(c, s, i, f) || (b.ramDone && b.busy),
        if alloc then i.addr.off else Bump(c, b.outCnt, OutArb(c, s, i, f) && i.outReady),
        (if RvdArb(s, i, f) && i.rerr then {LowBits(c, RvdBeat(c, b))} else {}) +
        (if b.busy then b.err else {}),
        addr, way, data, epoch)
    else
      b.(addr := addr, way := way, data := data, epoch := epoch)
  }

  /** All fill-buffer registers after one clock edge. */
  function Next(c: Cfg, s: Bufs, i: FbIn): (t: Bufs)
    requires Shape(c, s) && |i.hitData| == c.beats
    ensures Shape(c, t)
  {
    Bufs(seq(c.numFb, f requires 0 <= f < c.numFb => NextBuf(c, s, i, f)),
         if i.grant then set f: nat | f < c.numFb && AllocSel(s, f) else s.inIc1,
         i.actual)
  }

  /** instr_req_o */
  predicate InstrReq(c: Cfg, s: Bufs, i: FbIn) {
    ((!i.enable || i.branch) && i.grant) || ExtReq(c, s, i) != {}
  }

  /** The buffer that issues the bus request of this cycle: the arbitration winner, or the
      buffer being allocated when the request is speculative. */
  predicate Issues(c: Cfg, s: Bufs, i: FbIn, f: nat)
    requires f < |s.fb|
  {
    if ExtReq(c, s, i) != {} then ExtArb(c, s, i, f)
    else (!i.enable || i.branch) && Alloc(s, i, f)
  }

  /** The address buffer f puts on the bus: {fill_addr_q line, fill_ext_off}, or lookup_addr_ic0. */
  function IssueAddr(c: Cfg, s: Bufs, i: FbIn, f: nat): WordAddr
    requires f < |s.fb|
  {
    if ExtReq(c, s, i) != {}
    then WordAddr(s.fb[f].addr.line, LowBits(c, ExtBeat(c, s.fb[f])))
    else i.addr
  }
}
