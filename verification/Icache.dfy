/** The whole instruction cache: lookup pipeline, tag and data RAMs, invalidation FSM, fill
    buffers and output stage, as one clocked machine. */
module Icache {
  import opened IcacheTypes
  import FB = FillBuffers
  import BO = BusOrder
  import AL = Aligner

  /** A tag RAM entry: the valid bit with the tag. epoch is a history variable, copied from the
      fill buffer that wrote the entry. */
  datatype TagEntry = Invalid | Valid(tag: nat, epoch: nat)

  datatype InvalState = OutOfReset | AwaitScrambleKey | InvalCache | Idle

  /** Every register of the cache. rdTags and rdData are the registered outputs of the RAMs;
      ic1Line stands for lookup_addr_ic1 with lookup_index_ic1. The last five fields are history
      variables: the outstanding bus requests, the number of invalidation requests, whether
      there has been a branch, its target, and what was handed to the core since. */
  datatype State = State(
    bufs: FB.Bufs, prefetch: Addr, ic1Line: nat, cacheCnt: nat, roundRobin: nat,
    tags: seq<seq<TagEntry>>, data: seq<seq<seq<Word>>>,
    rdTags: seq<TagEntry>, rdData: seq<seq<Word>>,
    eccWrite: bool, eccWays: set<nat>, eccIndex: nat,
    inval: InvalState, invalIndex: nat, align: AL.Align,
    queue: seq<BO.Req>, epoch: nat, started: bool, origin: Addr, handed: seq<AL.Instr>)

  /** The inputs of one cycle. eccErr and eccWays stand for the ECC checkers, which may fire on
      any lookup when ICacheECC is set. */
  datatype In = In(
    req: bool, branch: bool, target: Addr, ready: bool, gnt: bool, rvalid: bool, rdata: Word,
    rerr: bool, enable: bool, inval: bool, keyValid: bool, eccErr: bool, eccWays: set<nat>)

  const CACHE_AHEAD := 2

  predicate Shape(c: Cfg, s: State) {
    && FB.Shape(c, s.bufs)
    && |s.tags| == |s.data| == |s.rdTags| == |s.rdData| == c.ways
    && (forall w | 0 <= w < c.ways :: |s.tags[w]| == |s.data[w]| == c.sets)
    && (forall w, k | 0 <= w < c.ways && 0 <= k < c.sets :: |s.data[w][k]| == c.beats)
    && (forall w | 0 <= w < c.ways :: |s.rdData[w]| == c.beats)
    && s.invalIndex < c.sets && s.eccIndex < c.sets && s.roundRobin < c.ways
    && ValidWordAddr(c, s.prefetch.word)
  }

  // ---------------------------------------------------------------- invalidation FSM outputs

  predicate InvalWrite(s: State) {
    s.inval == InvalCache
  }

  predicate BlockCache(s: State, i: In) {
    !(s.inval == Idle && !i.inval)
  }

  function NextInval(c: Cfg, s: State, i: In): InvalState {
    match s.inval
    case OutOfReset => AwaitScrambleKey
    case AwaitScrambleKey => if i.keyValid then InvalCache else AwaitScrambleKey
    case InvalCache =>
      if i.inval then AwaitScrambleKey
      else if s.invalIndex == c.sets - 1 then Idle else InvalCache
    case Idle => if i.inval then AwaitScrambleKey else Idle
  }

  function NextInvalIndex(c: Cfg, s: State, i: In): nat {
    match s.inval
    case AwaitScrambleKey => if i.keyValid then 0 else s.invalIndex
    case InvalCache => if s.invalIndex == c.sets - 1 then 0 else s.invalIndex + 1
    case _ => s.invalIndex
  }

  // ---------------------------------------------------------------- pipeline stage IC0

  /** fb_fill_level: busy buffers that are not stale, among the first n. */
  function FillLevel(s: FB.Bufs, n: nat): nat
    requires n <= |s.fb|
  {
    if n == 0 then 0
    else FillLevel(s, n - 1) + if s.fb[n - 1].busy && !s.fb[n - 1].stale then 1 else 0
  }

  predicate AnyFree(c: Cfg, s: State)
    requires Shape(c, s)
  {
    exists f | 0 <= f < c.numFb :: !s.bufs.fb[f].busy
  }

  /** lookup_req_ic0, which is also lookup_grant_ic0 */
  predicate Lookup(c: Cfg, s: State, i: In)
    requires Shape(c, s)
  {
    && i.req && AnyFree(c, s) && !s.eccWrite
    && (i.branch || FillLevel(s.bufs, c.numFb) <= c.numFb - 2)
  }

  function LookupAddr(s: State, i: In): Addr {
    if i.branch then i.target else s.prefetch
  }

  /** lookup_actual_ic0: a lookup that really reads the RAMs. */
  predicate LookupActual(c: Cfg, s: State, i: In)
    requires Shape(c, s)
  {
    Lookup(c, s, i) && i.enable && !BlockCache(s, i)
  }

  predicate CacheNew(c: Cfg, s: State, i: In) {
    (c.branchCache ==> i.branch || s.cacheCnt > 0) && i.enable && !BlockCache(s, i)
  }

  predicate FillGrant(c: Cfg, s: State, i: In)
    requires Shape(c, s)
  {
    FB.RamReq(c, s.bufs) != {} && !Lookup(c, s, i) && !InvalWrite(s) && !s.eccWrite
  }

  // ---------------------------------------------------------------- pipeline stage IC1

  predicate TagMatch(c: Cfg, s: State, w: nat)
    requires w < |s.rdTags|
  {
    s.rdTags[w].Valid? && s.rdTags[w].tag == Tag(c, s.ic1Line)
  }

  predicate TagHit(c: Cfg, s: State)
    requires Shape(c, s)
  {
    exists w | 0 <= w < c.ways :: TagMatch(c, s, w)
  }

  predicate EccErr(s: State, i: In) {
    s.bufs.lookupValid && i.eccErr
  }

  /** hit_data_ic1. The RTL ORs the data of all matching ways; they always agree. */
  function HitData(c: Cfg, s: State): (d: seq<Word>)
    requires Shape(c, s)
    ensures |d| == c.beats
  {
    var w := Lowest(c.ways, set w: nat | w < c.ways && TagMatch(c, s, w));
    if w < c.ways then s.rdData[w] else seq(c.beats, _ => ZERO_WORD)
  }

  /** sel_way_ic1: the lowest invalid way, else round robin. */
  function SelWay(c: Cfg, s: State): (w: nat)
    requires Shape(c, s)
    ensures w < c.ways
  {
    var w := Lowest(c.ways, set w: nat | w < c.ways && s.rdTags[w].Invalid?);
    if w < c.ways then w else s.roundRobin
  }

  /** lookup_valid_ic1 & tag_hit_ic1 & ~ecc_err_ic1 */
  predicate Hit(c: Cfg, s: State, i: In)
    requires Shape(c, s)
  {
    s.bufs.lookupValid && TagHit(c, s) && !EccErr(s, i)
  }

  /** The fill buffers' inputs, before output_ready is known. */
  function FbIn0(c: Cfg, s: State, i: In): (x: FB.FbIn)
    requires Shape(c, s)
    ensures |x.hitData| == c.beats
  {
    FB.FbIn(Lookup(c, s, i), LookupActual(c, s, i), LookupAddr(s, i).word, i.branch, i.gnt,
            i.rvalid, i.rdata, i.rerr, i.enable, i.inval, CacheNew(c, s, i),
            Hit(c, s, i), HitData(c, s), SelWay(c, s),
            FillGrant(c, s, i), false, if i.inval then s.epoch + 1 else s.epoch)
  }

  // ---------------------------------------------------------------- bus requests

  /** instr_req_o */
  predicate InstrReq(c: Cfg, s: State, i: In)
    requires Shape(c, s)
  {
    FB.InstrReq(c, s.bufs, FbIn0(c, s, i))
  }

  /** instr_addr_o */
  function InstrAddr(c: Cfg, s: State, i: In): WordAddr
    requires Shape(c, s)
  {
    var x := FbIn0(c, s, i);
    var f := Lowest(c.numFb, set f: nat | f < c.numFb && FB.ExtArb(c, s.bufs, x, f));
    if f < c.numFb then FB.IssueAddr(c, s.bufs, x, f) else LookupAddr(s, i).word
  }

  // ---------------------------------------------------------------- output data selection

  predicate DataReg(c: Cfg, s: State, i: In, f: nat)
    requires Shape(c, s) && f < c.numFb
  {
    var b := s.bufs.fb[f];
    && f in FB.Pending(c, s.bufs) && FB.DataSel(c, s.bufs, f)
    && (FB.RvdBeat(c, b) > b.outCnt || b.hit || b.err != {})
  }

  predicate DataHit(c: Cfg, s: State, i: In, f: nat)
    requires Shape(c, s) && f < c.numFb
  {
    s.bufs.fb[f].busy && FB.HitIc1(s.bufs, FbIn0(c, s, i), f) && FB.DataSel(c, s.bufs, f)
  }

  predicate DataRvd(c: Cfg, s: State, i: In, f: nat)
    requires Shape(c, s) && f < c.numFb
  {
    var b := s.bufs.fb[f];
    && f in FB.Pending(c, s.bufs) && FB.RvdArb(s.bufs, FbIn0(c, s, i), f)
    && !b.hit && !FB.HitIc1(s.bufs, FbIn0(c, s, i), f)
    && FB.RvdBeat(c, b) == b.outCnt && FB.DataSel(c, s.bufs, f)
  }

  function DataRegs(c: Cfg, s: State, i: In): set<nat>
    requires Shape(c, s)
  {
    set f: nat | f < c.numFb && DataReg(c, s, i, f)
  }

  predicate AnyDataHit(c: Cfg, s: State, i: In)
    requires Shape(c, s)
  {
    exists f | 0 <= f < c.numFb :: DataHit(c, s, i, f)
  }

  predicate AnyDataRvd(c: Cfg, s: State, i: In)
    requires Shape(c, s)
  {
    exists f | 0 <= f < c.numFb :: DataRvd(c, s, i, f)
  }

  /** line_data_muxed: when data has been skidded the output address is one word behind. */
  function MuxBeat(c: Cfg, s: State): nat {
    LowBits(c, s.align.pc.word.off + if s.align.skidValid then 1 else 0)
  }

  /** output_data, a one-hot selection written as a choice of the selected source. */
  function OutputData(c: Cfg, s: State, i: In): Word
    requires Shape(c, s)
  {
    var f := Lowest(c.numFb, DataRegs(c, s, i));
    var m := MuxBeat(c, s);
    if AnyDataRvd(c, s, i) then i.rdata
    else if m >= c.beats then ZERO_WORD
    else if AnyDataHit(c, s, i) then HitData(c, s)[m]
    else if f < c.numFb then s.bufs.fb[f].data[m]
    else ZERO_WORD
  }

  predicate OutputErr(c: Cfg, s: State, i: In)
    requires Shape(c, s)
  {
    var f := Lowest(c.numFb, DataRegs(c, s, i));
    if AnyDataRvd(c, s, i) then i.rerr
    else !AnyDataHit(c, s, i) && f < c.numFb && !s.bufs.fb[f].hit
         && MuxBeat(c, s) in s.bufs.fb[f].err
  }

  predicate DataValid(c: Cfg, s: State, i: In)
    requires Shape(c, s)
  {
    exists f | 0 <= f < c.numFb :: FB.OutArb(c, s.bufs, FbIn0(c, s, i), f)
  }

  function AlignIn(c: Cfg, s: State, i: In): AL.AlignIn
    requires Shape(c, s)
  {
    AL.AlignIn(i.ready, i.branch, i.target, DataValid(c, s, i), OutputData(c, s, i), OutputErr(c, s, i))
  }

  function FbIn(c: Cfg, s: State, i: In): (x: FB.FbIn)
    requires Shape(c, s)
    ensures |x.hitData| == c.beats && x.rvalid == i.rvalid
  {
    FbIn0(c, s, i).(outReady := AL.OutputReady(s.align, AlignIn(c, s, i)))
  }

  // ---------------------------------------------------------------- RAM accesses

  predicate TagWrite(c: Cfg, s: State, i: In)
    requires Shape(c, s)
  {
    FillGrant(c, s, i) || InvalWrite(s) || s.eccWrite
  }

  /** The buffer whose line is written to the cache; numFb when none is. */
  function RamWinner(c: Cfg, s: State, i: In): (f: nat)
    requires Shape(c, s)
    ensures f < c.numFb ==> FB.RamArb(c, s.bufs, FbIn0(c, s, i), f)
  {
    Lowest(c.numFb, set f: nat | f < c.numFb && FB.RamArb(c, s.bufs, FbIn0(c, s, i), f))
  }

  function FillLine(c: Cfg, s: State, i: In): nat
    requires Shape(c, s)
  {
    var f := RamWinner(c, s, i);
    if f < c.numFb then s.bufs.fb[f].addr.line else 0
  }

  function RamIndex(c: Cfg, s: State, i: In): (k: nat)
    requires Shape(c, s)
    ensures k < c.sets
  {
    if InvalWrite(s) then s.invalIndex
    else if s.eccWrite then s.eccIndex
    else if FillGrant(c, s, i) then Index(c, FillLine(c, s, i))
    else Index(c, LookupAddr(s, i).word.line)
  }

  predicate RamBank(c: Cfg, s: State, i: In, w: nat)
    requires Shape(c, s)
  {
    if s.eccWrite then w in s.eccWays
    else if FillGrant(c, s, i) then
      var f := RamWinner(c, s, i);
      f < c.numFb && s.bufs.fb[f].way == w
    else true
  }

  function WriteTag(c: Cfg, s: State, i: In): TagEntry
    requires Shape(c, s)
  {
    var f := RamWinner(c, s, i);
    if InvalWrite(s) || s.eccWrite then Invalid
    else Valid(Tag(c, FillLine(c, s, i)), if f < c.numFb then s.bufs.fb[f].epoch else 0)
  }

  function WriteData(c: Cfg, s: State, i: In): (d: seq<Word>)
    requires Shape(c, s)
    ensures |d| == c.beats
  {
    var f := RamWinner(c, s, i);
    if f < c.numFb then s.bufs.fb[f].data else seq(c.beats, _ => ZERO_WORD)
  }

  function NextTags(c: Cfg, s: State, i: In): (t: seq<seq<TagEntry>>)
    requires Shape(c, s)
    ensures |t| == c.ways && forall w | 0 <= w < c.ways :: |t[w]| == c.sets
  {
    seq(c.ways, w requires 0 <= w < c.ways =>
      if TagWrite(c, s, i) && RamBank(c, s, i, w)
      then s.tags[w][RamIndex(c, s, i) := WriteTag(c, s, i)] else s.tags[w])
  }

  /** The data RAM is only requested by lookups and fills, but shares index, banks and write
      strobe with the tag RAM. */
  function NextDataRam(c: Cfg, s: State, i: In): (t: seq<seq<seq<Word>>>)
    requires Shape(c, s)
    ensures |t| == c.ways && forall w | 0 <= w < c.ways :: |t[w]| == c.sets
    ensures forall w, k | 0 <= w < c.ways && 0 <= k < c.sets :: |t[w][k]| == c.beats
  {
    seq(c.ways, w requires 0 <= w < c.ways =>
      if TagWrite(c, s, i) && RamBank(c, s, i, w) && (Lookup(c, s, i) || FB.RamReq(c, s.bufs) != {})
      then s.data[w][RamIndex(c, s, i) := WriteData(c, s, i)] else s.data[w])
  }

  predicate RamRead(c: Cfg, s: State, i: In)
    requires Shape(c, s)
  {
    !TagWrite(c, s, i) && (Lookup(c, s, i) || FB.RamReq(c, s.bufs) != {})
  }

  function NextRdTags(c: Cfg, s: State, i: In): (t: seq<TagEntry>)
    requires Shape(c, s)
    ensures |t| == c.ways
  {
    if RamRead(c, s, i)
    then seq(c.ways, w requires 0 <= w < c.ways => s.tags[w][RamIndex(c, s, i)]) else s.rdTags
  }

  function NextRdData(c: Cfg, s: State, i: In): (t: seq<seq<Word>>)
    requires Shape(c, s)
    ensures |t| == c.ways && forall w | 0 <= w < c.ways :: |t[w]| == c.beats
  {
    var k := RamIndex(c, s, i);
    var row := seq(c.ways, w requires 0 <= w < c.ways => s.data[w][k]);
    assert forall w | 0 <= w < c.ways :: row[w] == s.data[w][k];
    if RamRead(c, s, i) then row else s.rdData
  }

  // ---------------------------------------------------------------- the clock edge

  function NextPrefetch(c: Cfg, s: State, i: In): Addr
    requires Shape(c, s)
  {
    if Lookup(c, s, i) then Addr(WordAddr(NextLine(c, LookupAddr(s, i).word.line), 0), false)
    else if i.branch then i.target
    else s.prefetch
  }

  function NextCacheCnt(c: Cfg, s: State, i: In): nat
    requires Shape(c, s)
  {
    if i.branch then CACHE_AHEAD
    else if Lookup(c, s, i) && s.cacheCnt > 0 then s.cacheCnt - 1
    else s.cacheCnt
  }

  function NextRoundRobin(c: Cfg, s: State): nat {
    if !s.bufs.lookupValid then s.roundRobin
    else if s.roundRobin + 1 < c.ways then s.roundRobin + 1 else 0
  }

  function NextHanded(c: Cfg, s: State, i: In): seq<AL.Instr>
    requires Shape(c, s)
  {
    var x := AlignIn(c, s, i);
    if i.branch then []
    else if AL.Handed(s.align, x) then s.handed + [AL.Output(s.align, x)] else s.handed
  }

  predicate LegalIn(c: Cfg, s: State, i: In) {
    && ValidWordAddr(c, i.target.word)
    && (i.rvalid ==> s.queue != [])
  }

  /** All registers after one clock edge. */
  function Next(c: Cfg, s: State, i: In): State
    requires Shape(c, s) && LegalIn(c, s, i)
  {
    State(
      FB.Next(c, s.bufs, FbIn(c, s, i)),
      NextPrefetch(c, s, i),
      if Lookup(c, s, i) then LookupAddr(s, i).word.line else s.ic1Line,
      NextCacheCnt(c, s, i),
      NextRoundRobin(c, s),
      NextTags(c, s, i),
      NextDataRam(c, s, i),
      NextRdTags(c, s, i),
      NextRdData(c, s, i),
      EccErr(s, i),
      if EccErr(s, i) then i.eccWays else s.eccWays,
      if EccErr(s, i) then Index(c, s.ic1Line) else s.eccIndex,
      NextInval(c, s, i),
      NextInvalIndex(c, s, i),
      AL.Next(c, s.align, AlignIn(c, s, i)),
      BO.NextQueue(c, s.bufs, s.queue, FbIn(c, s, i)),
      if i.inval then s.epoch + 1 else s.epoch,
      s.started || i.branch,
      if i.branch then i.target else s.origin,
      NextHanded(c, s, i))
  }

  lemma NextShape(c: Cfg, s: State, i: In)
    requires Shape(c, s) && LegalIn(c, s, i)
    ensures Shape(c, Next(c, s, i))
  {
  }

  /** Reset: no buffer busy, no lookup in flight, no correction pending; all other registers and
      both RAMs hold arbitrary values. */
  predicate Reset(c: Cfg, s: State) {
    && Shape(c, s)
    && FB.Busy(s.bufs) == {} && !s.bufs.lookupValid && !s.eccWrite
    && s.inval == OutOfReset && !s.align.skidValid
    && s.queue == [] && !s.started && s.handed == []
  }
}
