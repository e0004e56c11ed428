/** Theorems about every run of the instruction cache from reset. */
module IcacheRuns {
  import opened IcacheTypes
  import opened Icache
  import FB = FillBuffers
  import AM = AgeMatrix
  import BO = BusOrder
  import AL = Aligner
  import IV = IcacheInvalidation
  import Runs
  import ST = IcacheStream

  /** A run: states linked by clock edges, from reset, under inputs that respect the bus rule. */
  ghost predicate IsRun(c: Cfg, run: seq<State>, ins: seq<In>) {
    && |run| == |ins| + 1
    && Reset(c, run[0])
    && (forall k | 0 <= k < |run| :: Shape(c, run[k]))
    && (forall k | 0 <= k < |ins| :: LegalIn(c, run[k], ins[k]) && run[k + 1] == Next(c, run[k], ins[k]))
  }

  /** A fixed memory answers every request of the run, without errors. */
  ghost predicate AnsweredBy(c: Cfg, mem: ST.Memory, run: seq<State>, ins: seq<In>)
    requires IsRun(c, run, ins)
  {
    forall k | 0 <= k < |ins| :: ST.MemoryAnswers(c, mem, run[k], ins[k])
  }

  predicate BusAndInval(c: Cfg, s: State) {
    Shape(c, s) && BO.BusInv(c, s.bufs, s.queue) && IV.InvalInv(c, s)
  }

  lemma {:induction false} ControlInvariants(c: Cfg, run: seq<State>, ins: seq<In>, k: nat)
    requires IsRun(c, run, ins) && k < |run|
    ensures BusAndInval(c, run[k])
    decreases k
  {
    if k == 0 {
      AM.AgeOrderInitially(c, run[0].bufs);
    } else {
      ControlInvariants(c, run, ins, k - 1);
      var s, i := run[k - 1], ins[k - 1];
      ST.TopIsLegal(c, s, i);
      BO.BusInvKept(c, s.bufs, s.queue, FbIn(c, s, i));
      IV.InvalInvKept(c, s, i);
    }
  }

  /** In every reachable state the age matrix orders the busy buffers, so each arbiter selects the oldest
      eligible buffer: one whenever there is one, and never two. */
  lemma ArbitersOneHotAlways(c: Cfg, run: seq<State>, ins: seq<In>, k: nat, x: FB.FbIn)
    requires IsRun(c, run, ins) && k < |run|
    ensures AM.AgeOrder(c, run[k].bufs) && AM.ArbitersPick(c, run[k].bufs, x)
  {
    ControlInvariants(c, run, ins, k);
    AM.ArbitersOneHot(c, run[k].bufs, x);
  }

  /** Every response of a run is credited to exactly the buffer, and the beat of its line, that
      issued the oldest outstanding request; that buffer is busy with that request. */
  lemma EveryResponseCredited(c: Cfg, run: seq<State>, ins: seq<In>, k: nat)
    requires IsRun(c, run, ins) && k < |ins| && ins[k].rvalid
    ensures var s := run[k].bufs; var r := run[k].queue[0]; var x := FbIn(c, run[k], ins[k]);
            && r.fb in FB.Busy(s)
            && (forall f | 0 <= f < c.numFb :: FB.RvdArb(s, x, f) <==> f == r.fb)
            && r.addr == WordAddr(s.fb[r.fb].addr.line, LowBits(c, FB.RvdBeat(c, s.fb[r.fb])))
  {
    ControlInvariants(c, run, ins, k);
    BO.ResponseCreditedToIssuer(c, run[k].bufs, run[k].queue, FbIn(c, run[k], ins[k]));
  }

  /** No buffer is released in a cycle in which a response to it is outstanding. */
  lemma NeverReleasedEarly(c: Cfg, run: seq<State>, ins: seq<In>, k: nat, f: nat)
    requires IsRun(c, run, ins) && k < |ins|
    requires f in FB.Busy(run[k].bufs) && f !in FB.Busy(run[k + 1].bufs)
    ensures var q := run[k].queue; forall j | 0 <= j < |q| :: q[j].fb != f
    ensures var q := run[k + 1].queue; forall j | 0 <= j < |q| :: q[j].fb != f
  {
    var s, i := run[k], ins[k];
    var x := FbIn(c, s, i);
    ControlInvariants(c, run, ins, k);
    ControlInvariants(c, run, ins, k + 1);
    AM.NextBusy(c, s.bufs, x, f);
    BO.NoReleaseWhileOutstanding(c, s.bufs, s.queue, x, f);
  }

  lemma ArbWinner(c: Cfg, s: FB.Bufs, x: FB.FbIn, f: nat)
    requires FB.Shape(c, s) && AM.AgeOrder(c, s) && f < c.numFb && FB.Issues(c, s, x, f)
    ensures var arb := set g: nat | g < c.numFb && FB.ExtArb(c, s, x, g);
            if FB.ExtReq(c, s, x) != {} then arb == {f} else arb == {}
  {
    AM.ArbiterPicksOldest(c, s, FB.ExtReq(c, s, x));
  }

  lemma LowestOfOne(n: nat, f: nat)
    requires f < n
    ensures Lowest(n, {f}) == f && Lowest(n, {}) == n
  {
  }

  lemma IssuerAddress(c: Cfg, s: State, i: In, f: nat)
    requires Shape(c, s) && AM.AgeOrder(c, s.bufs) && f < c.numFb
    requires FB.Issues(c, s.bufs, FbIn0(c, s, i), f)
    ensures InstrReq(c, s, i) && InstrAddr(c, s, i) == FB.IssueAddr(c, s.bufs, FbIn0(c, s, i), f)
  {
    ArbWinner(c, s.bufs, FbIn0(c, s, i), f);
    LowestOfOne(c.numFb, f);
  }

  /** output_ready plays no part in the bus requests. */
  lemma ReadyIrrelevant(c: Cfg, s: State, i: In, f: nat)
    requires Shape(c, s) && f < c.numFb
    ensures FB.Issues(c, s.bufs, FbIn(c, s, i), f) == FB.Issues(c, s.bufs, FbIn0(c, s, i), f)
    ensures FB.IssueAddr(c, s.bufs, FbIn(c, s, i), f) == FB.IssueAddr(c, s.bufs, FbIn0(c, s, i), f)
  {
    assert FB.ExtReq(c, s.bufs, FbIn(c, s, i)) == FB.ExtReq(c, s.bufs, FbIn0(c, s, i));
  }

  /** Once instr_req_o is raised without a grant it stays raised, with the same instr_addr_o, in
      the next cycle, through branches, hits, and the cache being disabled. */
  lemma RequestHeld(c: Cfg, run: seq<State>, ins: seq<In>, k: nat)
    requires IsRun(c, run, ins) && k + 1 < |ins|
    requires InstrReq(c, run[k], ins[k]) && !ins[k].gnt
    ensures InstrReq(c, run[k + 1], ins[k + 1])
    ensures InstrAddr(c, run[k + 1], ins[k + 1]) == InstrAddr(c, run[k], ins[k])
  {
    var s, i := run[k], ins[k];
    ControlInvariants(c, run, ins, k);
    ControlInvariants(c, run, ins, k + 1);
    ST.TopIsLegal(c, s, i);
    BO.RequestHasIssuer(c, s.bufs, FbIn0(c, s, i));
    var f: nat :| f < c.numFb && FB.Issues(c, s.bufs, FbIn0(c, s, i), f);
    ReadyIrrelevant(c, s, i, f);
    ReadyIrrelevant(c, run[k + 1], ins[k + 1], f);
    BO.RequestHeldUntilGranted(c, s.bufs, s.queue, FbIn(c, s, i), FbIn(c, run[k + 1], ins[k + 1]), f);
    IssuerAddress(c, s, i, f);
    IssuerAddress(c, run[k + 1], ins[k + 1], f);
  }

  /** In every run a lookup that reaches the RAMs sees only lines whose fetch began after the most
      recent invalidation request; the FSM enters IDLE only with every tag invalid. */
  lemma LookupsNeverStale(c: Cfg, run: seq<State>, ins: seq<In>, k: nat)
    requires IsRun(c, run, ins) && k < |ins|
    ensures LookupActual(c, run[k], ins[k]) ==> !ins[k].inval && IV.AllFresh(c, run[k])
    ensures run[k].inval != Idle && run[k + 1].inval == Idle ==> IV.AllInvalid(c, run[k + 1], c.sets)
    ensures !(run[k].eccWrite && InvalWrite(run[k]))
  {
    ControlInvariants(c, run, ins, k);
    if LookupActual(c, run[k], ins[k]) { IV.LookupSeesOnlyFreshLines(c, run[k], ins[k]); }
    if run[k].inval != Idle && run[k + 1].inval == Idle { IV.IdleEnteredAllInvalid(c, run[k], ins[k]); }
  }

  // ---------------------------------------------------------------- the bus history

  /** The address granted on the bus in a cycle, if any. */
  function GrantedNow(c: Cfg, s: State, i: In): seq<WordAddr>
    requires Shape(c, s)
  {
    if InstrReq(c, s, i) && i.gnt then [InstrAddr(c, s, i)] else []
  }

  /** The addresses granted on the bus in the first k cycles, in order. */
  function GrantedAddrs(c: Cfg, run: seq<State>, ins: seq<In>, k: nat): seq<WordAddr>
    requires k <= |run| && k <= |ins| && forall j | 0 <= j < |run| :: Shape(c, run[j])
  {
    if k == 0 then [] else GrantedAddrs(c, run, ins, k - 1) + GrantedNow(c, run[k - 1], ins[k - 1])
  }

  /** The number of responses in the first k cycles. */
  function Responses(ins: seq<In>, k: nat): nat
    requires k <= |ins|
  {
    if k == 0 then 0 else Responses(ins, k - 1) + if ins[k - 1].rvalid then 1 else 0
  }

  function Addrs(q: seq<BO.Req>): (a: seq<WordAddr>)
    ensures |a| == |q|
  {
    seq(|q|, j requires 0 <= j < |q| => q[j].addr)
  }

  /** What joins the queue in a cycle is the one request granted at instr_addr_o, or nothing. */
  lemma QueueJoinsBus(c: Cfg, s: State, i: In)
    requires Shape(c, s) && LegalIn(c, s, i) && BO.BufsInv(c, s.bufs)
    ensures Addrs(BO.Granted(c, s.bufs, FbIn(c, s, i))) == GrantedNow(c, s, i)
  {
    var x := FbIn(c, s, i);
    ST.TopIsLegal(c, s, i);
    BO.RequestHasIssuer(c, s.bufs, x);
    ReadyIrrelevantToRequest(c, s, i);
    if InstrReq(c, s, i) {
      var f: nat :| f < c.numFb && FB.Issues(c, s.bufs, x, f);
      ReadyIrrelevant(c, s, i, f);
      IssuerAddress(c, s, i, f);
      if i.gnt { BO.GrantedBy(c, s.bufs, x, f); }
    } else {
      NoIssuerNoGrant(c, s.bufs, x);
    }
  }

  lemma ReadyIrrelevantToRequest(c: Cfg, s: State, i: In)
    requires Shape(c, s)
    ensures FB.InstrReq(c, s.bufs, FbIn(c, s, i)) == InstrReq(c, s, i)
  {
    SameRequests(c, s.bufs, FbIn0(c, s, i), FbIn(c, s, i).outReady);
  }

  lemma SameRequests(c: Cfg, s: FB.Bufs, x: FB.FbIn, ready: bool)
    ensures FB.InstrReq(c, s, x.(outReady := ready)) == FB.InstrReq(c, s, x)
  {
    assert FB.ExtReq(c, s, x.(outReady := ready)) == FB.ExtReq(c, s, x);
  }

  lemma NoIssuerNoGrant(c: Cfg, s: FB.Bufs, x: FB.FbIn)
    requires FB.Shape(c, s) && forall f | 0 <= f < c.numFb :: !FB.Issues(c, s, x, f)
    ensures BO.Granted(c, s, x) == []
  {
    assert (set f: nat | f < c.numFb && FB.Issues(c, s, x, f)) == {};
    LowestOfOne(c.numFb, 0);
  }

  /** The queue holds the addresses granted and not yet answered. */
  predicate QueueIs(s: State, all: seq<WordAddr>, n: nat) {
    n <= |all| && Addrs(s.queue) == all[n..]
  }

  lemma QueueStep(c: Cfg, s: State, i: In, all: seq<WordAddr>, n: nat)
    requires BusAndInval(c, s) && LegalIn(c, s, i) && QueueIs(s, all, n)
    ensures QueueIs(Next(c, s, i), all + GrantedNow(c, s, i), n + if i.rvalid then 1 else 0)
  {
    QueueJoinsBus(c, s, i);
    QueueMoves(s.queue, i.rvalid, BO.Granted(c, s.bufs, FbIn(c, s, i)), all, n);
  }

  /** In every run the queue holds exactly the addresses granted on the bus and not yet answered, so the
      responses answer the granted requests one by one in order. */
  lemma {:induction false} QueueIsBusHistory(c: Cfg, run: seq<State>, ins: seq<In>, k: nat)
    requires IsRun(c, run, ins) && k < |run|
    ensures QueueIs(run[k], GrantedAddrs(c, run, ins, k), Responses(ins, k))
    decreases k
  {
    if k > 0 {
      QueueIsBusHistory(c, run, ins, k - 1);
      ControlInvariants(c, run, ins, k - 1);
      QueueStep(c, run[k - 1], ins[k - 1], GrantedAddrs(c, run, ins, k - 1), Responses(ins, k - 1));
    }
  }

  lemma QueueMoves(q: seq<BO.Req>, rvalid: bool, added: seq<BO.Req>, all: seq<WordAddr>, n: nat)
    requires n <= |all| && Addrs(q) == all[n..] && (rvalid ==> q != [])
    ensures var m := n + if rvalid then 1 else 0;
            && m <= |all + Addrs(added)|
            && Addrs((if rvalid then q[1..] else q) + added) == (all + Addrs(added))[m..]
  {
    var rest := if rvalid then q[1..] else q;
    var m := n + if rvalid then 1 else 0;
    assert |all[n..]| == |q|;
    assert Addrs(rest) == all[m..];
    assert Addrs(rest + added) == Addrs(rest) + Addrs(added);
  }

  /** Response number n of a run is credited to the buffer and line offset for which request number n was
      granted on the bus. */
  lemma ResponsesAnswerInOrder(c: Cfg, run: seq<State>, ins: seq<In>, k: nat)
    requires IsRun(c, run, ins) && k < |ins| && ins[k].rvalid
    ensures var all, n := GrantedAddrs(c, run, ins, k), Responses(ins, k);
            var s, f := run[k].bufs, run[k].queue[0].fb;
            && n < |all| && f in FB.Busy(s)
            && (forall g | 0 <= g < c.numFb :: FB.RvdArb(s, FbIn(c, run[k], ins[k]), g) <==> g == f)
            && all[n] == WordAddr(s.fb[f].addr.line, LowBits(c, FB.RvdBeat(c, s.fb[f])))
  {
    QueueIsBusHistory(c, run, ins, k);
    EveryResponseCredited(c, run, ins, k);
    assert Addrs(run[k].queue)[0] == run[k].queue[0].addr;
  }

  // ---------------------------------------------------------------- the instruction stream

  /** The address of the n-th instruction of the stream that starts at a. */
  function PcAt(c: Cfg, mem: ST.Memory, a: Addr, n: nat): Addr {
    if n == 0 then a else AL.After(c, AL.InstrAt(c, mem, PcAt(c, mem, a, n - 1)))
  }

  /** handed is the beginning of the stream from origin, and pc is where it ends. */
  predicate Follows(c: Cfg, mem: ST.Memory, origin: Addr, handed: seq<AL.Instr>, pc: Addr) {
    && (forall n | 0 <= n < |handed| :: handed[n] == AL.InstrAt(c, mem, PcAt(c, mem, origin, n)))
    && pc == PcAt(c, mem, origin, |handed|)
  }

  /** One cycle without a branch appends the instruction handed over, if any. */
  lemma StreamGrows(c: Cfg, mem: ST.Memory, s: AL.Align, x: AL.AlignIn, origin: Addr, handed: seq<AL.Instr>)
    requires AL.InSync(mem, s) && !x.branch && Follows(c, mem, origin, handed, s.pc)
    requires x.dataValid ==> x.data == mem(AL.Cursor(c, s)) && !x.err
    ensures Follows(c, mem, origin, if AL.Handed(s, x) then handed + [AL.Output(s, x)] else handed,
                    AL.Next(c, s, x).pc)
  {
    AL.StepKeepsPlace(c, mem, s, x);
  }

  /** What has been handed over is the beginning of the stream from the last branch target. */
  predicate HandedRight(c: Cfg, mem: ST.Memory, s: State) {
    s.started ==> Follows(c, mem, s.origin, s.handed, s.align.pc)
  }

  lemma HandedStep(c: Cfg, mem: ST.Memory, s: State, i: In, t: State)
    requires ST.StreamInv(c, mem, s) && ST.MemoryAnswers(c, mem, s, i) && HandedRight(c, mem, s)
    requires t == Next(c, s, i)
    ensures HandedRight(c, mem, t)
  {
    if !i.branch && s.started {
      ST.AlignStep(c, mem, s, i);
      StreamGrows(c, mem, s.align, AlignIn(c, s, i), s.origin, s.handed);
    }
  }

  /** The stream invariant with what has been handed over. */
  ghost predicate StreamRight(c: Cfg, mem: ST.Memory, s: State) {
    ST.StreamInv(c, mem, s) && HandedRight(c, mem, s)
  }

  ghost predicate AnsweredStep(c: Cfg, mem: ST.Memory, s: State, i: In, t: State) {
    Shape(c, s) && ST.MemoryAnswers(c, mem, s, i) && t == Next(c, s, i)
  }

  lemma StreamStep(c: Cfg, mem: ST.Memory, s: State, i: In, t: State)
    requires StreamRight(c, mem, s) && AnsweredStep(c, mem, s, i, t)
    ensures StreamRight(c, mem, t)
  {
    ST.StreamInvKept(c, mem, s, i);
    HandedStep(c, mem, s, i, t);
  }

  lemma RunStep(c: Cfg, mem: ST.Memory, run: seq<State>, ins: seq<In>, j: nat)
    requires IsRun(c, run, ins) && AnsweredBy(c, mem, run, ins) && j < |ins|
    ensures AnsweredStep(c, mem, run[j], ins[j], run[j + 1])
  {
  }

  lemma StreamAtReset(c: Cfg, mem: ST.Memory, s: State)
    requires Reset(c, s)
    ensures StreamRight(c, mem, s)
  {
    AM.AgeOrderInitially(c, s.bufs);
  }

  lemma StreamInvariants(c: Cfg, mem: ST.Memory, run: seq<State>, ins: seq<In>, k: nat)
    requires IsRun(c, run, ins) && AnsweredBy(c, mem, run, ins) && k < |run|
    ensures StreamRight(c, mem, run[k])
  {
    var inv := s => StreamRight(c, mem, s);
    var step := (s, i, t) => AnsweredStep(c, mem, s, i, t);
    StreamAtReset(c, mem, run[0]);
    forall j | 0 <= j < |ins| ensures step(run[j], ins[j], run[j + 1]) {
      RunStep(c, mem, run, ins, j);
    }
    forall s, i, t | inv(s) && step(s, i, t) ensures inv(t) {
      StreamStep(c, mem, s, i, t);
    }
    Runs.Throughout(inv, step, run, ins, k);
  }

  /** Whatever the output stage presents is the instruction of the memory at its address. */
  lemma PresentedIsCorrect(c: Cfg, mem: ST.Memory, run: seq<State>, ins: seq<In>, k: nat)
    requires IsRun(c, run, ins) && AnsweredBy(c, mem, run, ins) && k < |ins| && run[k].started
    ensures var s := run[k]; var x := AlignIn(c, s, ins[k]);
            AL.Valid(s.align, x) ==>
              !AL.Err(s.align, x) && AL.Output(s.align, x) == AL.InstrAt(c, mem, s.align.pc)
  {
    StreamInvariants(c, mem, run, ins, k);
    ST.AlignStep(c, mem, run[k], ins[k]);
    AL.StepKeepsPlace(c, mem, run[k].align, AlignIn(c, run[k], ins[k]));
  }

  /** After any branch the core receives exactly the instructions of the memory from the branch
      target on: in order, at the right addresses, none lost and none repeated. */
  lemma CoreReceivesTheStream(c: Cfg, mem: ST.Memory, run: seq<State>, ins: seq<In>, k: nat)
    requires IsRun(c, run, ins) && AnsweredBy(c, mem, run, ins) && k < |run|
    ensures run[k].started ==> Follows(c, mem, run[k].origin, run[k].handed, run[k].align.pc)
  {
    StreamInvariants(c, mem, run, ins, k);
  }
}
