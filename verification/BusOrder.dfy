/** The in-order bus seen by the fill buffers: outstanding requests form a queue, and every
    response is credited to the buffer and beat that issued the request at its head. */
module BusOrder {
  import opened IcacheTypes
  import opened FillBuffers
  import opened AgeMatrix

  /** A granted request: the num-th request of buffer fb since its allocation, at address addr. */
  datatype Req = Req(fb: nat, num: nat, addr: WordAddr)

  /** The num-th request of a buffer goes to this address. */
  function ReqOf(c: Cfg, s: Bufs, f: nat, num: nat): Req
    requires f < |s.fb|
  {
    Req(f, num, WordAddr(s.fb[f].addr.line, LowBits(c, Wrap(c, s.fb[f].addr.off + num))))
  }

  /** A response is legal at least one cycle after the grant of its request. */
  predicate LegalBus(q: seq<Req>, i: FbIn) {
    i.rvalid ==> q != []
  }

  /** A lookup is granted only while some buffer is free, at a proper address. */
  predicate LegalLookup(c: Cfg, s: Bufs, i: FbIn)
    requires Shape(c, s)
  {
    && |i.hitData| == c.beats
    && ValidWordAddr(c, i.addr)
    && (i.grant ==> exists f | 0 <= f < c.numFb :: !s.fb[f].busy)
    && (i.hit ==> s.lookupValid)
    && (i.actual ==> i.grant)
  }

  /** The request granted in this cycle, if any. */
  function Granted(c: Cfg, s: Bufs, i: FbIn): seq<Req>
    requires Shape(c, s)
  {
    var f := Lowest(c.numFb, set f: nat | f < c.numFb && Issues(c, s, i, f));
    if i.gnt && f < c.numFb
    then [Req(f, if Alloc(s, i, f) then 0 else s.fb[f].extCnt, IssueAddr(c, s, i, f))]
    else []
  }

  /** The queue after one cycle: the head leaves with its response, a granted request joins. */
  function NextQueue(c: Cfg, s: Bufs, q: seq<Req>, i: FbIn): seq<Req>
    requires Shape(c, s) && LegalBus(q, i)
  {
    (if i.rvalid then q[1..] else q) + Granted(c, s, i)
  }

  // ---------------------------------------------------------------- invariants

  predicate Counters(c: Cfg, b: FillBuffer) {
    b.busy ==>
      && b.rvdCnt <= b.extCnt <= c.beats
      && (b.extHold ==> b.extCnt < c.beats)
      && ValidWordAddr(c, b.addr)
      && b.addr.off <= b.outCnt <= c.beats
  }

  /** A recorded fill_ext_done_q is justified by registers alone, so it cannot revert. */
  predicate DoneJustified(c: Cfg, b: FillBuffer) {
    b.busy && b.extDone ==>
      && !b.extHold
      && (|| b.extCnt >= c.beats || b.hit
          || (!b.cache && (b.stale || ExtBeat(c, b) >= c.beats)))
  }

  /** A buffer that has put anything on the bus has only finished buffers ahead of it. */
  predicate OlderFinished(s: Bufs, f: nat)
    requires f < |s.fb|
  {
    f in Busy(s) && (s.fb[f].extCnt > 0 || s.fb[f].extHold) ==>
      forall g | g in s.fb[f].older && g < |s.fb| :: s.fb[g].extDone
  }

  /** While a lookup is in IC1 its buffer is busy, and nothing is younger. */
  predicate Ic1Youngest(c: Cfg, s: Bufs)
    requires Shape(c, s)
  {
    s.lookupValid ==>
      exists f | f in Busy(s) :: s.inIc1 == {f} && s.fb[f].older == Busy(s) - {f}
                                 && s.fb[f].rvdCnt == 0 && !s.fb[f].hit && !s.fb[f].extDone
                                 && s.fb[f].outCnt == s.fb[f].addr.off
  }

  predicate BufsInv(c: Cfg, s: Bufs) {
    && Shape(c, s)
    && AgeOrder(c, s)
    && (forall f | 0 <= f < c.numFb :: Counters(c, s.fb[f]) && DoneJustified(c, s.fb[f]))
    && (forall f | 0 <= f < c.numFb :: OlderFinished(s, f))
    && Ic1Youngest(c, s)
  }

  /** The queue holds exactly the granted, unanswered requests of the busy buffers ... */
  predicate QueueMatches(c: Cfg, s: Bufs, q: seq<Req>)
    requires Shape(c, s)
  {
    && (forall k | 0 <= k < |q| ::
          && q[k].fb in Busy(s)
          && s.fb[q[k].fb].rvdCnt <= q[k].num < s.fb[q[k].fb].extCnt
          && q[k] == ReqOf(c, s, q[k].fb, q[k].num))
    && (forall f, n: nat | f in Busy(s) && s.fb[f].rvdCnt <= n < s.fb[f].extCnt ::
          ReqOf(c, s, f, n) in q)
  }

  /** ... oldest buffer first, and in issue order within a buffer. */
  predicate Before(s: Bufs, a: Req, b: Req) {
    b.fb < |s.fb| && (if a.fb == b.fb then a.num < b.num else a.fb in s.fb[b.fb].older)
  }

  predicate QueueSorted(s: Bufs, q: seq<Req>) {
    forall k, l | 0 <= k < l < |q| :: Before(s, q[k], q[l])
  }

  predicate BusInv(c: Cfg, s: Bufs, q: seq<Req>) {
    BufsInv(c, s) && QueueMatches(c, s, q) && QueueSorted(s, q)
  }

  // ---------------------------------------------------------------- step lemmas

  /** Once recorded, completion of the external requests holds in every later cycle. */
  lemma DoneNeverReverts(c: Cfg, s: Bufs, i: FbIn, f: nat)
    requires BufsInv(c, s) && f in Busy(s) && s.fb[f].extDone
    ensures ExtDoneD(c, s, i, f) && f !in ExtReq(c, s, i)
  {
  }

  /** What is recorded in fill_ext_done_q is justified by the new register values. */
  lemma DoneJustifiedKept(c: Cfg, s: Bufs, i: FbIn, f: nat)
    requires BufsInv(c, s) && LegalLookup(c, s, i) && f < c.numFb
    ensures DoneJustified(c, Next(c, s, i).fb[f])
  {
    var t := Next(c, s, i);
    assert t.fb[f] == NextBuf(c, s, i, f);
    if t.fb[f].busy && t.fb[f].extDone {
      assert f in Busy(s) && ExtDoneD(c, s, i, f) && f !in ExtReq(c, s, i);
      assert !Alloc(s, i, f) && !ExtArb(c, s, i, f);
    }
  }

  /** The head of the queue comes before every other outstanding request. */
  lemma HeadFirst(c: Cfg, s: Bufs, q: seq<Req>, f: nat, n: nat)
    requires BusInv(c, s, q) && f in Busy(s) && s.fb[f].rvdCnt <= n < s.fb[f].extCnt
    ensures q != [] && (q[0] == ReqOf(c, s, f, n) || Before(s, q[0], ReqOf(c, s, f, n)))
  {
    var r := ReqOf(c, s, f, n);
    assert r in q;
    var k :| 0 <= k < |q| && q[k] == r;
    assert k > 0 ==> Before(s, q[0], q[k]);
  }

  /** The buffer at the head of the queue expects the next beat, and no older buffer does. */
  lemma CreditedBufferExpects(c: Cfg, s: Bufs, q: seq<Req>, i: FbIn)
    requires BusInv(c, s, q) && LegalBus(q, i) && i.rvalid
    ensures var h := q[0]; h.fb < c.numFb && RvdArb(s, i, h.fb) && h.num == s.fb[h.fb].rvdCnt
  {
    var h := q[0];
    var f := h.fb;
    assert f in RvdExp(s);
    assert OlderFinished(s, f);
    forall g | g in s.fb[f].older ensures g !in RvdExp(s) {
      assert DoneJustified(c, s.fb[g]);
      if s.fb[g].rvdCnt < s.fb[g].extCnt {
        HeadFirst(c, s, q, g, s.fb[g].rvdCnt);
        assert false;
      }
    }
    HeadFirst(c, s, q, f, s.fb[f].rvdCnt);
  }

  /** Each response beat goes to the buffer, and into the line offset, of the request at the head
      of the queue, and to no other buffer. */
  lemma ResponseCreditedToIssuer(c: Cfg, s: Bufs, q: seq<Req>, i: FbIn)
    requires BusInv(c, s, q) && LegalBus(q, i) && i.rvalid
    ensures forall f | 0 <= f < c.numFb :: RvdArb(s, i, f) <==> f == q[0].fb
    ensures q[0].addr == WordAddr(s.fb[q[0].fb].addr.line, LowBits(c, RvdBeat(c, s.fb[q[0].fb])))
  {
    CreditedBufferExpects(c, s, q, i);
    ArbiterPicksOldest(c, s, RvdExp(s));
    assert q[0] == ReqOf(c, s, q[0].fb, q[0].num);
  }

  /** A buffer is never released while a response to it is outstanding. */
  lemma NoReleaseWhileOutstanding(c: Cfg, s: Bufs, q: seq<Req>, i: FbIn, f: nat)
    requires BusInv(c, s, q) && f in Busy(s) && FillDone(c, s, i, f)
    ensures forall k | 0 <= k < |q| :: q[k].fb != f
    ensures f !in ExtReq(c, s, i)
  {
    DoneNeverReverts(c, s, i, f);
  }

  /** f is issuing or allocated in this cycle, and nobody else gains a request. */
  lemma IssuerUnique(c: Cfg, s: Bufs, i: FbIn, f: nat, g: nat)
    requires BufsInv(c, s) && f < c.numFb && g < c.numFb
    requires Issues(c, s, i, f) && Issues(c, s, i, g)
    ensures f == g
  {
    if ExtReq(c, s, i) != {} {
      ArbiterPicksOldest(c, s, ExtReq(c, s, i));
    } else {
      AllocUnique(s, f, g);
    }
  }

  /** Whoever issues has only finished buffers ahead of it. */
  lemma IssuerHasFinishedElders(c: Cfg, s: Bufs, i: FbIn, f: nat, g: nat)
    requires BufsInv(c, s) && LegalLookup(c, s, i) && f < c.numFb && Issues(c, s, i, f)
    requires var t := Next(c, s, i); f in Busy(t) && g in t.fb[f].older
    ensures ExtDoneD(c, s, i, g)
  {
    NextBusy(c, s, i, f);
    assert Next(c, s, i).fb[f] == NextBuf(c, s, i, f);
    assert g in Busy(s) && g !in ExtReq(c, s, i);
  }

  lemma OlderFinishedKept(c: Cfg, s: Bufs, i: FbIn, f: nat)
    requires BufsInv(c, s) && LegalLookup(c, s, i) && f < c.numFb
    ensures OlderFinished(Next(c, s, i), f)
  {
    var t := Next(c, s, i);
    assert t.fb[f] == NextBuf(c, s, i, f);
    if f in Busy(t) && (t.fb[f].extCnt > 0 || t.fb[f].extHold) {
      forall g | g in t.fb[f].older && g < |t.fb|
        ensures t.fb[g].extDone
      {
        NextBusy(c, s, i, f);
        assert t.fb[g] == NextBuf(c, s, i, g);
        assert g in Busy(s);
        if Issues(c, s, i, f) {
          IssuerHasFinishedElders(c, s, i, f, g);
        } else {
          assert OlderFinished(s, f);
          DoneNeverReverts(c, s, i, g);
        }
      }
    }
  }

  lemma CountersKept(c: Cfg, s: Bufs, q: seq<Req>, i: FbIn, f: nat)
    requires BusInv(c, s, q) && LegalBus(q, i) && LegalLookup(c, s, i) && f < c.numFb
    ensures Counters(c, Next(c, s, i).fb[f])
  {
    assert Next(c, s, i).fb[f] == NextBuf(c, s, i, f);
    if f in Busy(s) && RvdArb(s, i, f) {
      ResponseCreditedToIssuer(c, s, q, i);
    }
  }

  lemma Ic1YoungestKept(c: Cfg, s: Bufs, i: FbIn)
    requires BufsInv(c, s) && LegalLookup(c, s, i)
    ensures Ic1Youngest(c, Next(c, s, i))
  {
    if i.actual {
      var f := LowestFree(c, s);
      var t := Next(c, s, i);
      assert t.fb[f] == NextBuf(c, s, i, f);
      forall g | g in t.inIc1 ensures g == f { AllocUnique(s, f, g); }
      assert t.inIc1 == {f};
      forall g | g in Busy(t) && g != f
        ensures g in t.fb[f].older
      {
        NextBusy(c, s, i, g);
        if Alloc(s, i, g) { AllocUnique(s, f, g); }
      }
      AgeOrderKept(c, s, i);
      assert f in Busy(t);
      assert t.fb[f].older == Busy(t) - {f};
    }
  }

  lemma LowestFree(c: Cfg, s: Bufs) returns (f: nat)
    requires Shape(c, s) && exists g | 0 <= g < c.numFb :: !s.fb[g].busy
    ensures f < c.numFb && AllocSel(s, f)
  {
    f := 0;
    while s.fb[f].busy
      invariant f < c.numFb
      invariant forall g | 0 <= g < f :: s.fb[g].busy
      invariant exists g | f <= g < c.numFb :: !s.fb[g].busy
      decreases c.numFb - f
    {
      f := f + 1;
    }
  }

  /** The fill-buffer invariants survive every legal cycle. */
  lemma BufsInvKept(c: Cfg, s: Bufs, q: seq<Req>, i: FbIn)
    requires BusInv(c, s, q) && LegalBus(q, i) && LegalLookup(c, s, i)
    ensures BufsInv(c, Next(c, s, i))
  {
    AgeOrderKept(c, s, i);
    Ic1YoungestKept(c, s, i);
    forall f | 0 <= f < c.numFb
      ensures Counters(c, Next(c, s, i).fb[f]) && DoneJustified(c, Next(c, s, i).fb[f])
    {
      CountersKept(c, s, q, i, f);
      DoneJustifiedKept(c, s, i, f);
    }
    forall f | 0 <= f < c.numFb
      ensures OlderFinished(Next(c, s, i), f)
    {
      OlderFinishedKept(c, s, i, f);
    }
  }

  /** How the outstanding window of a buffer moves in one cycle. */
  lemma WindowMoves(c: Cfg, s: Bufs, q: seq<Req>, i: FbIn, f: nat)
    requires BusInv(c, s, q) && LegalBus(q, i) && LegalLookup(c, s, i)
    requires f in Busy(Next(c, s, i))
    ensures var b, b' := s.fb[f], Next(c, s, i).fb[f];
            if Alloc(s, i, f) then
              b'.rvdCnt == 0 && b'.extCnt == (if Issues(c, s, i, f) && i.gnt then 1 else 0)
              && b'.addr == i.addr && f !in Busy(s)
            else
              && f in Busy(s) && b'.addr == b.addr
              && b'.extCnt == b.extCnt + (if Issues(c, s, i, f) && i.gnt then 1 else 0)
              && b'.rvdCnt == b.rvdCnt + (if i.rvalid && q[0].fb == f then 1 else 0)
  {
    NextBusy(c, s, i, f);
    assert Next(c, s, i).fb[f] == NextBuf(c, s, i, f);
    if i.rvalid { ResponseCreditedToIssuer(c, s, q, i); }
    if f in ExtReq(c, s, i) { assert Counters(c, s.fb[f]); }
  }

  /** The request put on the bus carries the next request number of its buffer. */
  lemma IssuedRequest(c: Cfg, s: Bufs, q: seq<Req>, i: FbIn, f: nat)
    requires BusInv(c, s, q) && LegalBus(q, i) && LegalLookup(c, s, i)
    requires f < c.numFb && Issues(c, s, i, f)
    ensures f in Busy(Next(c, s, i))
    ensures Req(f, if Alloc(s, i, f) then 0 else s.fb[f].extCnt, IssueAddr(c, s, i, f))
            == ReqOf(c, Next(c, s, i), f, if Alloc(s, i, f) then 0 else s.fb[f].extCnt)
  {
    NextBusy(c, s, i, f);
    assert Next(c, s, i).fb[f] == NextBuf(c, s, i, f);
    if ExtReq(c, s, i) != {} {
      assert f in Busy(s) && f in ExtReq(c, s, i);
      if s.fb[f].extDone { DoneNeverReverts(c, s, i, f); }
    }
  }

  /** instr_req_o is up exactly when some buffer issues a request. */
  lemma RequestHasIssuer(c: Cfg, s: Bufs, i: FbIn)
    requires BufsInv(c, s) && LegalLookup(c, s, i)
    ensures InstrReq(c, s, i) <==> exists f :: 0 <= f < c.numFb && Issues(c, s, i, f)
  {
    ArbiterPicksOldest(c, s, ExtReq(c, s, i));
    if ExtReq(c, s, i) != {} {
      var f :| f in Busy(s) && Oldest(s, ExtReq(c, s, i), f);
      assert Issues(c, s, i, f);
    } else if InstrReq(c, s, i) {
      var f := LowestFree(c, s);
      assert Issues(c, s, i, f);
    }
  }

  /** Requests that stay outstanding keep matching the windows of their buffers. */
  lemma SurvivorStays(c: Cfg, s: Bufs, q: seq<Req>, i: FbIn, k: nat)
    requires BusInv(c, s, q) && LegalBus(q, i) && LegalLookup(c, s, i)
    requires (if i.rvalid then 1 else 0) <= k < |q|
    ensures var t := Next(c, s, i); var r := q[k];
            && r.fb in Busy(t) && r.fb in Busy(s)
            && t.fb[r.fb].rvdCnt <= r.num < t.fb[r.fb].extCnt
            && r == ReqOf(c, t, r.fb, r.num)
  {
    var f := q[k].fb;
    if FillDone(c, s, i, f) {
      NoReleaseWhileOutstanding(c, s, q, i, f);
      assert false;
    }
    NextBusy(c, s, i, f);
    WindowMoves(c, s, q, i, f);
    if i.rvalid {
      CreditedBufferExpects(c, s, q, i);
      assert Before(s, q[0], q[k]);
    }
  }

  /** A granted request is the newest of its buffer, and all other outstanding requests belong
      to that buffer or to older ones. */
  lemma GrantedIsLast(c: Cfg, s: Bufs, q: seq<Req>, i: FbIn, k: nat)
    requires BusInv(c, s, q) && LegalBus(q, i) && LegalLookup(c, s, i)
    requires (if i.rvalid then 1 else 0) <= k < |q|
    requires Granted(c, s, i) != []
    ensures Before(Next(c, s, i), q[k], Granted(c, s, i)[0])
  {
    var t := Next(c, s, i);
    var r := Granted(c, s, i)[0];
    var g, f := q[k].fb, r.fb;
    SurvivorStays(c, s, q, i, k);
    IssuedRequest(c, s, q, i, f);
    AgeOrderKept(c, s, i);
    WindowMoves(c, s, q, i, f);
    if g != f && g !in t.fb[f].older {
      assert f in t.fb[g].older && t.fb[g].older <= Busy(t);
      assert t.fb[g] == NextBuf(c, s, i, g);
      assert f in s.fb[g].older && OlderFinished(s, g);
      DoneNeverReverts(c, s, i, f);
      assert false;
    }
  }

  lemma SurvivorsSorted(c: Cfg, s: Bufs, q: seq<Req>, i: FbIn, k: nat, l: nat)
    requires BusInv(c, s, q) && LegalBus(q, i) && LegalLookup(c, s, i)
    requires (if i.rvalid then 1 else 0) <= k < l < |q|
    ensures Before(Next(c, s, i), q[k], q[l])
  {
    var f, g := q[k].fb, q[l].fb;
    SurvivorStays(c, s, q, i, k);
    SurvivorStays(c, s, q, i, l);
    assert Before(s, q[k], q[l]);
    assert Next(c, s, i).fb[g] == NextBuf(c, s, i, g);
    NextBusy(c, s, i, f);
  }

  lemma QueueSortedKept(c: Cfg, s: Bufs, q: seq<Req>, i: FbIn)
    requires BusInv(c, s, q) && LegalBus(q, i) && LegalLookup(c, s, i)
    ensures QueueSorted(Next(c, s, i), NextQueue(c, s, q, i))
  {
    var t, q' := Next(c, s, i), NextQueue(c, s, q, i);
    var d := if i.rvalid then 1 else 0;
    var added := Granted(c, s, i);
    forall k, l | d <= k < l < |q|
      ensures Before(t, q[k], q[l])
    {
      SurvivorsSorted(c, s, q, i, k, l);
    }
    if added != [] {
      forall k | d <= k < |q|
        ensures Before(t, q[k], added[0])
      {
        GrantedIsLast(c, s, q, i, k);
      }
    }
    SortedParts(t, q[d..], added);
  }

  lemma SortedParts(t: Bufs, a: seq<Req>, b: seq<Req>)
    requires QueueSorted(t, a) && |b| <= 1
    requires b != [] ==> forall k | 0 <= k < |a| :: Before(t, a[k], b[0])
    ensures QueueSorted(t, a + b)
  {
  }

  /** What is still outstanding after the edge is still in the queue. */
  lemma OutstandingIsQueued(c: Cfg, s: Bufs, q: seq<Req>, i: FbIn, f: nat, n: nat)
    requires BusInv(c, s, q) && LegalBus(q, i) && LegalLookup(c, s, i)
    requires var t := Next(c, s, i);
             f in Busy(t) && t.fb[f].rvdCnt <= n < t.fb[f].extCnt
    ensures ReqOf(c, Next(c, s, i), f, n) in NextQueue(c, s, q, i)
  {
    var d := if i.rvalid then 1 else 0;
    WindowMoves(c, s, q, i, f);
    var r := ReqOf(c, Next(c, s, i), f, n);
    if f in Busy(s) && n < s.fb[f].extCnt {
      assert r == ReqOf(c, s, f, n) && r in q;
      if i.rvalid { CreditedBufferExpects(c, s, q, i); }
      TailKeeps(q, d, r);
    } else {
      GrantedBy(c, s, i, f);
      IssuedRequest(c, s, q, i, f);
      assert r in Granted(c, s, i);
    }
  }

  lemma TailKeeps(q: seq<Req>, d: nat, r: Req)
    requires r in q && d <= 1 && d <= |q| && (d == 1 ==> q[0] != r)
    ensures r in q[d..]
  {
    var k :| 0 <= k < |q| && q[k] == r;
    assert q[d..][k - d] == r;
  }

  lemma GrantedBy(c: Cfg, s: Bufs, i: FbIn, f: nat)
    requires BufsInv(c, s) && f < c.numFb && Issues(c, s, i, f) && i.gnt
    ensures Granted(c, s, i) ==
            [Req(f, if Alloc(s, i, f) then 0 else s.fb[f].extCnt, IssueAddr(c, s, i, f))]
  {
    forall g: nat | g < c.numFb && Issues(c, s, i, g) ensures g == f {
      IssuerUnique(c, s, i, f, g);
    }
    var issuing := set g: nat | g < c.numFb && Issues(c, s, i, g);
    assert f in issuing && Lowest(c.numFb, issuing) in issuing;
  }

  lemma GrantedMatches(c: Cfg, s: Bufs, q: seq<Req>, i: FbIn)
    requires BusInv(c, s, q) && LegalBus(q, i) && LegalLookup(c, s, i)
    ensures var t := Next(c, s, i);
            forall r | r in Granted(c, s, i) ::
              && r.fb in Busy(t) && t.fb[r.fb].rvdCnt <= r.num < t.fb[r.fb].extCnt
              && r == ReqOf(c, t, r.fb, r.num)
  {
    if f: nat :| f < c.numFb && Issues(c, s, i, f) && i.gnt {
      GrantedBy(c, s, i, f);
      IssuedRequest(c, s, q, i, f);
      WindowMoves(c, s, q, i, f);
      if i.rvalid { CreditedBufferExpects(c, s, q, i); }
    }
  }

  /** What is in the queue after the edge is outstanding. */
  lemma QueuedIsOutstanding(c: Cfg, s: Bufs, q: seq<Req>, i: FbIn, k: nat)
    requires BusInv(c, s, q) && LegalBus(q, i) && LegalLookup(c, s, i)
    requires k < |NextQueue(c, s, q, i)|
    ensures var t, r := Next(c, s, i), NextQueue(c, s, q, i)[k];
            && r.fb in Busy(t) && t.fb[r.fb].rvdCnt <= r.num < t.fb[r.fb].extCnt
            && r == ReqOf(c, t, r.fb, r.num)
  {
    var d := if i.rvalid then 1 else 0;
    if k + d < |q| {
      assert NextQueue(c, s, q, i)[k] == q[k + d];
      SurvivorStays(c, s, q, i, k + d);
    } else {
      GrantedMatches(c, s, q, i);
      assert NextQueue(c, s, q, i)[k] in Granted(c, s, i);
    }
  }

  lemma QueueMatchesKept(c: Cfg, s: Bufs, q: seq<Req>, i: FbIn)
    requires BusInv(c, s, q) && LegalBus(q, i) && LegalLookup(c, s, i)
    ensures QueueMatches(c, Next(c, s, i), NextQueue(c, s, q, i))
  {
    var t, q' := Next(c, s, i), NextQueue(c, s, q, i);
    forall k | 0 <= k < |q'|
      ensures q'[k].fb in Busy(t) && t.fb[q'[k].fb].rvdCnt <= q'[k].num < t.fb[q'[k].fb].extCnt
      ensures q'[k] == ReqOf(c, t, q'[k].fb, q'[k].num)
    {
      QueuedIsOutstanding(c, s, q, i, k);
    }
    forall f, n: nat | f in Busy(t) && t.fb[f].rvdCnt <= n < t.fb[f].extCnt
      ensures ReqOf(c, t, f, n) in q'
    {
      OutstandingIsQueued(c, s, q, i, f, n);
    }
  }

  /** The whole bus invariant survives every legal cycle. */
  lemma BusInvKept(c: Cfg, s: Bufs, q: seq<Req>, i: FbIn)
    requires BusInv(c, s, q) && LegalBus(q, i) && LegalLookup(c, s, i)
    ensures BusInv(c, Next(c, s, i), NextQueue(c, s, q, i))
  {
    BufsInvKept(c, s, q, i);
    QueueSortedKept(c, s, q, i);
    QueueMatchesKept(c, s, q, i);
  }

  // ---------------------------------------------------------------- request stability

  /** A request that is not granted is repeated, with the same address, in the next cycle, whatever
      the inputs of that next cycle are. */
  lemma RequestHeldUntilGranted(c: Cfg, s: Bufs, q: seq<Req>, i: FbIn, i': FbIn, f: nat)
    requires BusInv(c, s, q) && LegalBus(q, i) && LegalLookup(c, s, i)
    requires f < c.numFb && Issues(c, s, i, f) && !i.gnt
    ensures var t := Next(c, s, i);
            && InstrReq(c, t, i') && Issues(c, t, i', f)
            && IssueAddr(c, t, i', f) == IssueAddr(c, s, i, f)
  {
    var t := Next(c, s, i);
    IssuedRequest(c, s, q, i, f);
    BufsInvKept(c, s, q, i);
    WindowMoves(c, s, q, i, f);
    assert t.fb[f] == NextBuf(c, s, i, f);
    assert t.fb[f].extHold && f in ExtReq(c, t, i');
    assert OlderFinished(t, f);
    forall g | g in t.fb[f].older ensures g !in ExtReq(c, t, i') {
      DoneNeverReverts(c, t, i', g);
    }
  }
}
