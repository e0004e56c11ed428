/** The age matrix fill_older_q: on the busy buffers it is a strict total order in every
    reachable state, so each age-based arbiter picks exactly the oldest requester. */
module AgeMatrix {
  import opened IcacheTypes
  import opened FillBuffers

  /** Every older set holds busy buffers only; of two busy buffers exactly one is older; and
      "older" is transitive. */
  predicate AgeOrder(c: Cfg, s: Bufs)
    requires Shape(c, s)
  {
    && (forall f | f in Busy(s) :: s.fb[f].older <= Busy(s) - {f})
    && (forall f, g | f in Busy(s) && g in Busy(s) && f != g ::
          g in s.fb[f].older <==> f !in s.fb[g].older)
    && (forall f, g | f in Busy(s) && g in s.fb[f].older :: s.fb[g].older <= s.fb[f].older)
  }

  /** f is in req and is older than everything else in req. */
  predicate Oldest(s: Bufs, req: set<nat>, f: nat)
    requires req <= Busy(s)
  {
    f in req && forall g | g in req && g != f :: f in s.fb[g].older
  }

  lemma {:induction false} OldestExists(c: Cfg, s: Bufs, req: set<nat>) returns (f: nat)
    requires Shape(c, s) && AgeOrder(c, s)
    requires req <= Busy(s) && req != {}
    ensures f in req && Arb(s, req, f)
    decreases |req|
  {
    f :| f in req;
    var rest := req * s.fb[f].older;
    if rest != {} {
      assert f !in rest;
      assert rest < req;
      SubsetSmaller(rest, req);
      var g := OldestExists(c, s, rest);
      assert s.fb[g].older <= s.fb[f].older;
      assert req * s.fb[g].older == rest * s.fb[g].older;
      f := g;
    }
  }

  lemma {:induction false} SubsetSmaller(a: set<nat>, b: set<nat>)
    requires a < b
    ensures |a| < |b|
  {
    assert b == a + (b - a);
    assert b - a != {};
  }

  /** The arbiter expression req & ~|(req & older) selects the oldest requester: exactly one
      buffer when anyone requests, none otherwise. */
  lemma ArbiterPicksOldest(c: Cfg, s: Bufs, req: set<nat>)
    requires Shape(c, s) && AgeOrder(c, s)
    requires req <= Busy(s)
    ensures forall f | f in Busy(s) :: Arb(s, req, f) <==> Oldest(s, req, f)
    ensures forall f, g | f in Busy(s) && g in Busy(s) :: Arb(s, req, f) && Arb(s, req, g) ==> f == g
    ensures req != {} ==> exists f :: f in Busy(s) && Oldest(s, req, f)
  {
    forall f | f in Busy(s)
      ensures Arb(s, req, f) <==> Oldest(s, req, f)
    {
      if Oldest(s, req, f) {
        forall g | g in req ensures g !in s.fb[f].older {}
      }
    }
    if req != {} {
      var f := OldestExists(c, s, req);
      assert Oldest(s, req, f);
    }
  }

  /** The lowest free buffer is unique. */
  lemma AllocUnique(s: Bufs, f: nat, g: nat)
    requires f < |s.fb| && g < |s.fb| && AllocSel(s, f) && AllocSel(s, g)
    ensures f == g
  {
  }

  /** Which buffers are busy after the edge. */
  lemma NextBusy(c: Cfg, s: Bufs, i: FbIn, f: nat)
    requires Shape(c, s) && |i.hitData| == c.beats && f < c.numFb
    ensures f in Busy(Next(c, s, i)) <==>
              Alloc(s, i, f) || (f in Busy(s) && !FillDone(c, s, i, f))
  {
  }

  /** No clock edge breaks the age order. */
  lemma AgeOrderKept(c: Cfg, s: Bufs, i: FbIn)
    requires Shape(c, s) && AgeOrder(c, s) && |i.hitData| == c.beats
    ensures AgeOrder(c, Next(c, s, i))
  {
    var t := Next(c, s, i);
    var done := Done(c, s, i);
    forall f | f in Busy(t)
      ensures Alloc(s, i, f) || (f in Busy(s) && f !in done)
      ensures t.fb[f].older == (if Alloc(s, i, f) then Busy(s) else s.fb[f].older) - done
      ensures t.fb[f].older <= Busy(t) - {f}
    {
      NextBusy(c, s, i, f);
      forall g | g in t.fb[f].older ensures g in Busy(t) {
        NextBusy(c, s, i, g);
      }
    }
    forall f, g | f in Busy(t) && g in Busy(t) && f != g
      ensures g in t.fb[f].older <==> f !in t.fb[g].older
    {
      if Alloc(s, i, f) && Alloc(s, i, g) { AllocUnique(s, f, g); }
    }
  }

  /** Out of reset no buffer is busy. */
  lemma AgeOrderInitially(c: Cfg, s: Bufs)
    requires Shape(c, s) && Busy(s) == {}
    ensures AgeOrder(c, s)
  {
  }

  /** Which buffers each arbiter selects. */
  function ExtArbs(c: Cfg, s: Bufs, i: FbIn): set<nat> {
    set f: nat | f < |s.fb| && ExtArb(c, s, i, f)
  }

  function RvdArbs(s: Bufs, i: FbIn): set<nat> {
    set f: nat | f < |s.fb| && RvdArb(s, i, f)
  }

  function RamArbs(c: Cfg, s: Bufs, i: FbIn): set<nat> {
    set f: nat | f < |s.fb| && RamArb(c, s, i, f)
  }

  function OutArbs(c: Cfg, s: Bufs, i: FbIn): set<nat> {
    set f: nat | f < |s.fb| && OutArb(c, s, i, f)
  }

  predicate AtMostOne(v: set<nat>) {
    forall f, g | f in v && g in v :: f == g
  }

  /** The selection sel is the oldest requester: one whenever anyone requests, and never two. */
  predicate PicksOldest(s: Bufs, req: set<nat>, sel: set<nat>)
    requires req <= Busy(s)
  {
    && AtMostOne(sel) && (sel != {} <==> req != {})
    && (forall f | f in Busy(s) :: f in sel <==> Oldest(s, req, f))
  }

  /** The output goes to the oldest pending buffer when that has data to give. */
  predicate OutputPicks(c: Cfg, s: Bufs, i: FbIn)
    requires Shape(c, s)
  {
    && AtMostOne(OutArbs(c, s, i))
    && (forall f | f in Busy(s) :: f in OutArbs(c, s, i) <==> OutReq(c, s, i, f) && Oldest(s, Pending(c, s), f))
    && (OutArbs(c, s, i) != {} <==>
          exists f | f in Pending(c, s) :: Oldest(s, Pending(c, s), f) && OutReq(c, s, i, f))
  }

  /** All four age-based choices of one cycle, external request, response credit, cache write and output,
      go to the oldest eligible buffer. */
  predicate ArbitersPick(c: Cfg, s: Bufs, i: FbIn)
    requires Shape(c, s)
  {
    && PicksOldest(s, ExtReq(c, s, i), ExtArbs(c, s, i))
    && (if i.rvalid then PicksOldest(s, RvdExp(s), RvdArbs(s, i)) else RvdArbs(s, i) == {})
    && (if i.fillGrant then PicksOldest(s, RamReq(c, s), RamArbs(c, s, i)) else RamArbs(c, s, i) == {})
    && OutputPicks(c, s, i)
  }

  /** One arbiter over the request vector req. */
  lemma OneArbiter(c: Cfg, s: Bufs, req: set<nat>, sel: set<nat>)
    requires Shape(c, s) && AgeOrder(c, s) && req <= Busy(s)
    requires forall f: nat :: f in sel <==> f < |s.fb| && Arb(s, req, f)
    ensures PicksOldest(s, req, sel)
  {
    ArbiterPicksOldest(c, s, req);
    if req != {} {
      var f :| f in Busy(s) && Oldest(s, req, f);
      assert f in sel;
    }
  }

  lemma OutputArbiter(c: Cfg, s: Bufs, i: FbIn)
    requires Shape(c, s) && AgeOrder(c, s)
    ensures OutputPicks(c, s, i)
  {
    ArbiterPicksOldest(c, s, Pending(c, s));
    forall f | f in Busy(s)
      ensures f in OutArbs(c, s, i) <==> OutReq(c, s, i, f) && Oldest(s, Pending(c, s), f)
    {
      assert OutReq(c, s, i, f) ==> f in Pending(c, s);
      assert Arb(s, Pending(c, s), f) <==> Oldest(s, Pending(c, s), f);
    }
  }

  lemma ArbitersOneHot(c: Cfg, s: Bufs, i: FbIn)
    requires Shape(c, s) && AgeOrder(c, s)
    ensures ArbitersPick(c, s, i)
  {
    OneArbiter(c, s, ExtReq(c, s, i), ExtArbs(c, s, i));
    if i.rvalid { OneArbiter(c, s, RvdExp(s), RvdArbs(s, i)); }
    if i.fillGrant { OneArbiter(c, s, RamReq(c, s), RamArbs(c, s, i)); }
    OutputArbiter(c, s, i);
  }
}
