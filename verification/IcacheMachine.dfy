/** The cache as a clocked object: its registers and RAMs, updated together at each edge. */
module IcacheMachine {
  import opened IcacheTypes
  import opened Icache
  import FB = FillBuffers
  import BO = BusOrder
  import AL = Aligner

  /** The tag and data RAM writes of one edge, bank by bank. */
  method ClockRams(c: Cfg, s: State, i: In) returns (tags: seq<seq<TagEntry>>, data: seq<seq<seq<Word>>>)
    requires Shape(c, s)
    ensures tags == NextTags(c, s, i) && data == NextDataRam(c, s, i)
  {
    var k := RamIndex(c, s, i);
    var dataReq := Lookup(c, s, i) || FB.RamReq(c, s.bufs) != {};
    tags, data := s.tags, s.data;
    for w := 0 to c.ways
      invariant |tags| == |data| == c.ways
      invariant forall v | 0 <= v < c.ways :: tags[v] == (if v < w then NextTags(c, s, i) else s.tags)[v]
      invariant forall v | 0 <= v < c.ways :: data[v] == (if v < w then NextDataRam(c, s, i) else s.data)[v]
    {
      if TagWrite(c, s, i) && RamBank(c, s, i, w) {
        tags := tags[w := tags[w][k := WriteTag(c, s, i)]];
        if dataReq {
          data := data[w := data[w][k := WriteData(c, s, i)]];
        }
      }
    }
  }

  /** The fill-buffer registers of one edge, buffer by buffer. */
  method ClockFillBuffers(c: Cfg, s: FB.Bufs, x: FB.FbIn) returns (t: FB.Bufs)
    requires FB.Shape(c, s) && |x.hitData| == c.beats
    ensures t == FB.Next(c, s, x)
  {
    var fb, sel := s.fb, {};
    for f := 0 to c.numFb
      invariant |fb| == c.numFb
      invariant forall g | 0 <= g < c.numFb :: fb[g] == if g < f then FB.NextBuf(c, s, x, g) else s.fb[g]
      invariant sel == set g: nat | g < f && FB.AllocSel(s, g)
    {
      fb := fb[f := FB.NextBuf(c, s, x, f)];
      if FB.AllocSel(s, f) { sel := sel + {f}; }
    }
    t := FB.Bufs(fb, if x.grant then sel else s.inIc1, x.actual);
    assert t.fb == FB.Next(c, s, x).fb;
    assert t.inIc1 == FB.Next(c, s, x).inIc1;
  }

  class ICache {
    const c: Cfg
    var regs: State

    /** Power-up: reset clears the control registers; the RAMs and buffer data are arbitrary. */
    constructor (c: Cfg, tags: seq<seq<TagEntry>>, data: seq<seq<seq<Word>>>, fb: seq<FB.FillBuffer>)
      requires |tags| == |data| == c.ways && |fb| == c.numFb
      requires forall w | 0 <= w < c.ways :: |tags[w]| == |data[w]| == c.sets
      requires forall w, k | 0 <= w < c.ways && 0 <= k < c.sets :: |data[w][k]| == c.beats
      requires forall f | 0 <= f < c.numFb :: |fb[f].data| == c.beats && !fb[f].busy
      ensures this.c == c && regs.tags == tags && regs.data == data && regs.bufs.fb == fb
      ensures Reset(c, regs)
    {
      this.c := c;
      var zero := Addr(WordAddr(0, 0), false);
      regs := State(FB.Bufs(fb, {}, false), zero, 0, 0, 0, tags, data,
                    seq(c.ways, _ => Invalid), seq(c.ways, _ => seq(c.beats, _ => ZERO_WORD)),
                    false, {}, 0, OutOfReset, 0, AL.Align(zero, false, 0, false),
                    [], 0, false, zero, []);
    }

    /** One rising clock edge: the next-state values are formed from the old registers, then all
        registers take their new values at once. */
    method Clock(i: In)
      requires Shape(c, regs) && LegalIn(c, regs, i)
      modifies this
      ensures regs == Next(c, old(regs), i) && Shape(c, regs)
    {
      NextShape(c, regs, i);
      var x, out := FbIn(c, regs, i), AlignIn(c, regs, i);
      var bufs := ClockFillBuffers(c, regs.bufs, x);
      var tags, data := ClockRams(c, regs, i);
      var lookup, branch := Lookup(c, regs, i), i.branch;
      var eccErr := EccErr(regs, i);
      regs := regs.(
        bufs := bufs,
        prefetch := NextPrefetch(c, regs, i),
        ic1Line := if lookup then LookupAddr(regs, i).word.line else regs.ic1Line,
        cacheCnt := NextCacheCnt(c, regs, i),
        roundRobin := NextRoundRobin(c, regs),
        tags := tags, data := data,
        rdTags := NextRdTags(c, regs, i), rdData := NextRdData(c, regs, i),
        eccWrite := eccErr,
        eccWays := if eccErr then i.eccWays else regs.eccWays,
        eccIndex := if eccErr then Index(c, regs.ic1Line) else regs.eccIndex,
        inval := NextInval(c, regs, i), invalIndex := NextInvalIndex(c, regs, i),
        align := AL.Next(c, regs.align, out),
        queue := BO.NextQueue(c, regs.bufs, regs.queue, x),
        epoch := if i.inval then regs.epoch + 1 else regs.epoch,
        started := regs.started || branch,
        origin := if branch then i.target else regs.origin,
        handed := NextHanded(c, regs, i));
    }
  }
}
