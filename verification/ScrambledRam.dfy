/** The scrambled single-port RAM of prim_ram_1p_scr.sv: delayed writes, the holding register for
    a write interrupted by a read, forwarding on address collision, and the scrambled data and
    address paths. It behaves as a plain memory. */
module ScrambledRam {
  import opened Bits
  import Runs
  import SP = SubstPerm

  /** Widths and scrambling parameters, with key and nonce folded in: addrKey is the nonce slice
      that scrambles addresses, keystream(a) is what the PRINCE instances produce for address a. */
  datatype Params = Params(
    addrWidth: nat, width: nat, diffWidth: nat, diffRounds: nat, addrRounds: nat,
    addrKey: BitVec, keystream: BitVec -> BitVec)

  predicate ValidParams(p: Params) {
    p.diffWidth >= 1
  }

  /** The registers, the RAM macro's array and read register, the address held in the halfway
      register of PRINCE, and two history variables: the address of the last accepted write and
      the value a plain memory returns for the read in flight. */
  datatype State = State(
    writeEn: bool, pending: bool, collision: bool, rvalid: bool,
    waddrScr: BitVec, wmask: BitVec, wdata: BitVec, wdataScr: BitVec,
    mem: map<BitVec, BitVec>, rdataScr: BitVec, ksAddr: BitVec,
    waddr: BitVec, expected: BitVec)

  datatype In = In(req: bool, keyValid: bool, write: bool, addr: BitVec, wdata: BitVec, wmask: BitVec)

  // ---------------------------------------------------------------- data and address path

  /** addr_scr */
  function ScrambleAddr(p: Params, a: BitVec): (r: BitVec)
    ensures |r| == |a|
  {
    if p.addrRounds > 0 then SP.Crypt(false, a, p.addrKey, p.addrRounds) else a
  }

  /** The diffusion network, slice by slice; the last slice may be narrower. */
  function Diffuse(p: Params, dec: bool, x: BitVec): (r: BitVec)
    requires ValidParams(p)
    ensures |r| == |x|
    decreases |x|
  {
    if |x| <= p.diffWidth then SP.Crypt(dec, x, Zeros(|x|), p.diffRounds)
    else SP.Crypt(dec, x[..p.diffWidth], Zeros(p.diffWidth), p.diffRounds)
         + Diffuse(p, dec, x[p.diffWidth..])
  }

  /** wdata_scr_d: keystream first, then diffusion. */
  function Encrypt(p: Params, x: BitVec, a: BitVec): (r: BitVec)
    requires ValidParams(p)
    ensures |r| == |x|
  {
    Diffuse(p, false, Xor(x, p.keystream(a)))
  }

  /** rdata: inverse diffusion first, then keystream. */
  function Decrypt(p: Params, x: BitVec, a: BitVec): (r: BitVec)
    requires ValidParams(p)
    ensures |r| == |x|
  {
    Xor(Diffuse(p, true, x), p.keystream(a))
  }

  /** Bits of b where the mask is set, bits of a elsewhere. */
  function Merge(a: BitVec, b: BitVec, mask: BitVec): (r: BitVec)
    requires |a| == |b| == |mask|
    ensures |r| == |a|
  {
    seq(|a|, i requires 0 <= i < |a| => if mask[i] then b[i] else a[i])
  }

  /** All mask bits of a diffusion slice agree, as the RAM macro demands of its mask groups. */
  predicate Uniform(p: Params, mask: BitVec)
    requires ValidParams(p)
    decreases |mask|
  {
    if |mask| <= p.diffWidth then Constant(mask)
    else Constant(mask[..p.diffWidth]) && Uniform(p, mask[p.diffWidth..])
  }

  predicate Constant(mask: BitVec) {
    forall i | 0 <= i < |mask| :: mask[i] == mask[0]
  }

  lemma ScrambleAddrInjective(p: Params, a: BitVec, b: BitVec)
    requires |a| == |b| && ScrambleAddr(p, a) == ScrambleAddr(p, b)
    ensures a == b
  {
    if p.addrRounds > 0 { SP.CryptBijective(false, a, b, p.addrKey, p.addrRounds); }
  }

  /** Diffusion works on the first slice and on the rest separately. */
  lemma DiffuseCat(p: Params, dec: bool, a: BitVec, b: BitVec)
    requires ValidParams(p) && |a| == p.diffWidth && |b| > 0
    ensures Diffuse(p, dec, a + b) == SP.Crypt(dec, a, Zeros(|a|), p.diffRounds) + Diffuse(p, dec, b)
  {
    assert (a + b)[..p.diffWidth] == a && (a + b)[p.diffWidth..] == b;
  }

  lemma {:induction false} DiffuseInverse(p: Params, dec: bool, x: BitVec)
    requires ValidParams(p)
    ensures Diffuse(p, !dec, Diffuse(p, dec, x)) == x
    decreases |x|
  {
    if |x| <= p.diffWidth {
      SP.CryptInverse(dec, x, Zeros(|x|), p.diffRounds);
    } else {
      var a, b := x[..p.diffWidth], x[p.diffWidth..];
      var ca, db := SP.Crypt(dec, a, Zeros(|a|), p.diffRounds), Diffuse(p, dec, b);
      assert x == a + b;
      DiffuseCat(p, dec, a, b);
      DiffuseCat(p, !dec, ca, db);
      SP.CryptInverse(dec, a, Zeros(|a|), p.diffRounds);
      DiffuseInverse(p, dec, b);
    }
  }

  lemma DecryptEncrypt(p: Params, x: BitVec, a: BitVec)
    requires ValidParams(p)
    ensures Decrypt(p, Encrypt(p, x, a), a) == x
  {
    DiffuseInverse(p, false, Xor(x, p.keystream(a)));
    XorTwice(x, p.keystream(a));
  }

  lemma ConstantMerge(a: BitVec, b: BitVec, mask: BitVec)
    requires |a| == |b| == |mask| && Constant(mask)
    ensures Merge(a, b, mask) == if |mask| > 0 && mask[0] then b else a
  {
  }

  lemma MergeSplits(a: BitVec, b: BitVec, mask: BitVec, k: nat)
    requires |a| == |b| == |mask| && k <= |a|
    ensures Merge(a, b, mask)[..k] == Merge(a[..k], b[..k], mask[..k])
    ensures Merge(a, b, mask)[k..] == Merge(a[k..], b[k..], mask[k..])
    ensures Merge(a, b, mask) == Merge(a[..k], b[..k], mask[..k]) + Merge(a[k..], b[k..], mask[k..])
  {
  }

  /** Diffusion commutes with a masked write whose mask is uniform on every slice. */
  lemma {:induction false} DiffuseMerge(p: Params, dec: bool, a: BitVec, b: BitVec, mask: BitVec)
    requires ValidParams(p) && |a| == |b| == |mask| && Uniform(p, mask)
    ensures Diffuse(p, dec, Merge(a, b, mask)) == Merge(Diffuse(p, dec, a), Diffuse(p, dec, b), mask)
    decreases |a|
  {
    var k := p.diffWidth;
    if |a| <= k {
      ConstantMerge(a, b, mask);
      ConstantMerge(Diffuse(p, dec, a), Diffuse(p, dec, b), mask);
    } else {
      var z := Zeros(k);
      MergeSplits(a, b, mask, k);
      ConstantMerge(a[..k], b[..k], mask[..k]);
      ConstantMerge(SP.Crypt(dec, a[..k], z, p.diffRounds), SP.Crypt(dec, b[..k], z, p.diffRounds), mask[..k]);
      DiffuseMerge(p, dec, a[k..], b[k..], mask[k..]);
      var da, db := Diffuse(p, dec, a), Diffuse(p, dec, b);
      MergeSplits(da, db, mask, k);
      assert da[..k] == SP.Crypt(dec, a[..k], z, p.diffRounds) && da[k..] == Diffuse(p, dec, a[k..]);
      assert db[..k] == SP.Crypt(dec, b[..k], z, p.diffRounds) && db[k..] == Diffuse(p, dec, b[k..]);
    }
  }

  /** A masked write of encrypted data reads back as the masked write of the data. */
  lemma DecryptMerge(p: Params, prior: BitVec, x: BitVec, mask: BitVec, a: BitVec)
    requires ValidParams(p) && |prior| == |x| == |mask| && Uniform(p, mask)
    ensures Decrypt(p, Merge(prior, Encrypt(p, x, a), mask), a) == Merge(Decrypt(p, prior, a), x, mask)
  {
    var e := Encrypt(p, x, a);
    DiffuseMerge(p, true, prior, e, mask);
    DecryptEncrypt(p, x, a);
    XorMerge(Diffuse(p, true, prior), Diffuse(p, true, e), mask, p.keystream(a));
  }

  lemma XorMerge(a: BitVec, b: BitVec, mask: BitVec, k: BitVec)
    requires |a| == |b| == |mask|
    ensures Xor(Merge(a, b, mask), k) == Merge(Xor(a, k), Xor(b, k), mask)
  {
  }

  // ---------------------------------------------------------------- one clock cycle

  predicate ValidState(p: Params, s: State) {
    && ValidParams(p)
    && |s.waddrScr| == |s.ksAddr| == |s.waddr| == p.addrWidth
    && |s.wmask| == |s.wdata| == |s.wdataScr| == |s.rdataScr| == |s.expected| == p.width
    && Uniform(p, s.wmask)
    && (forall a: BitVec | a in s.mem :: |s.mem[a]| == p.width)
  }

  /** The array has a word at every address. */
  ghost predicate Full(p: Params, s: State) {
    ValidState(p, s) && forall a: BitVec | |a| == p.addrWidth :: a in s.mem
  }

  predicate ValidIn(p: Params, i: In)
    requires ValidParams(p)
  {
    |i.addr| == p.addrWidth && |i.wdata| == |i.wmask| == p.width && Uniform(p, i.wmask)
  }

  /** gnt_o */
  predicate Gnt(i: In) {
    i.req && i.keyValid
  }

  predicate ReadEn(i: In) {
    Gnt(i) && !i.write
  }

  predicate WriteEnD(i: In) {
    Gnt(i) && i.write
  }

  predicate AddrCollision(p: Params, s: State, i: In) {
    (s.writeEn || s.pending) && ReadEn(i) && ScrambleAddr(p, i.addr) == s.waddrScr
  }

  /** A write that is in flight or parked reaches the array unless a read comes in. */
  predicate MacroWrite(s: State, i: In) {
    (s.writeEn || s.pending) && !ReadEn(i)
  }

  predicate RwCollision(s: State, i: In) {
    s.writeEn && ReadEn(i)
  }

  predicate NextPending(s: State, i: In) {
    if MacroWrite(s, i) then false else if RwCollision(s, i) then true else s.pending
  }

  function WdataScrD(p: Params, s: State): (r: BitVec)
    requires ValidState(p, s)
    ensures |r| == p.width
  {
    Encrypt(p, s.wdata, s.ksAddr)
  }

  /** wdata_scr: the word put on the macro's write port. */
  function WdataScr(p: Params, s: State): (r: BitVec)
    requires ValidState(p, s)
    ensures |r| == p.width
  {
    if s.pending then s.wdataScr else WdataScrD(p, s)
  }

  /** rdata_o while rvalid_o is high, with the forwarding of a collided write. */
  function RdataOut(p: Params, s: State): (r: BitVec)
    requires ValidState(p, s)
    ensures |r| == p.width
  {
    var rdata := Decrypt(p, s.rdataScr, s.ksAddr);
    if !s.rvalid then Zeros(p.width)
    else if s.collision then Merge(rdata, s.wdata, s.wmask)
    else rdata
  }

  /** What a plain memory would hold at address a: the array's word, with the outstanding write. */
  function Plain(p: Params, s: State, a: BitVec): (r: BitVec)
    requires ValidState(p, s) && |a| == p.addrWidth && ScrambleAddr(p, a) in s.mem
    ensures |r| == p.width
  {
    var stored := Decrypt(p, s.mem[ScrambleAddr(p, a)], a);
    if (s.writeEn || s.pending) && s.waddrScr == ScrambleAddr(p, a)
    then Merge(stored, s.wdata, s.wmask) else stored
  }

  function NextMem(p: Params, s: State, i: In): map<BitVec, BitVec>
    requires ValidState(p, s)
  {
    if MacroWrite(s, i) && s.waddrScr in s.mem
    then s.mem[s.waddrScr := Merge(s.mem[s.waddrScr], WdataScr(p, s), s.wmask)] else s.mem
  }

  /** All registers after one clock edge. */
  function Next(p: Params, s: State, i: In): State
    requires ValidState(p, s) && ValidIn(p, i)
  {
    var a := ScrambleAddr(p, i.addr);
    var read := ReadEn(i) && a in s.mem;
    State(
      WriteEnD(i), NextPending(s, i), AddrCollision(p, s, i), ReadEn(i),
      if WriteEnD(i) then a else s.waddrScr,
      if WriteEnD(i) then i.wmask else s.wmask,
      if WriteEnD(i) then i.wdata else s.wdata,
      if RwCollision(s, i) then WdataScrD(p, s) else s.wdataScr,
      NextMem(p, s, i),
      if read then s.mem[a] else s.rdataScr,
      if Gnt(i) then i.addr else s.ksAddr,
      if WriteEnD(i) then i.addr else s.waddr,
      if read then Plain(p, s, i.addr) else s.expected)
  }

  /** Out of reset nothing is outstanding; the array holds anything. */
  ghost predicate Reset(p: Params, s: State) {
    Full(p, s) && !s.writeEn && !s.pending && !s.collision && !s.rvalid
  }

  // ---------------------------------------------------------------- refinement

  ghost predicate Inv(p: Params, s: State) {
    && Full(p, s)
    && !(s.writeEn && s.pending)
    && (s.writeEn || s.pending ==> s.waddrScr == ScrambleAddr(p, s.waddr))
    && (s.writeEn ==> s.ksAddr == s.waddr)
    && (s.pending ==> s.wdataScr == Encrypt(p, s.wdata, s.waddr))
    && (s.rvalid ==> RdataOut(p, s) == s.expected)
  }

  /** The stored word is decrypted with the right keystream, whether it was in flight or parked. */
  lemma OutstandingWord(p: Params, s: State)
    requires Inv(p, s) && (s.writeEn || s.pending)
    ensures WdataScr(p, s) == Encrypt(p, s.wdata, s.waddr)
  {
  }

  /** The outstanding write reaching the array changes nothing that a reader could see. */
  lemma CommitInvisible(p: Params, s: State, i: In, a: BitVec)
    requires Inv(p, s) && |a| == p.addrWidth && ScrambleAddr(p, a) in NextMem(p, s, i)
    requires MacroWrite(s, i)
    ensures Decrypt(p, NextMem(p, s, i)[ScrambleAddr(p, a)], a) == Plain(p, s, a)
  {
    if s.waddrScr == ScrambleAddr(p, a) {
      ScrambleAddrInjective(p, a, s.waddr);
      OutstandingWord(p, s);
      DecryptMerge(p, s.mem[s.waddrScr], s.wdata, s.wmask, a);
    }
  }

  /** One cycle acts on the plain memory exactly as the granted request says: a write changes the
      masked bits of its address, anything else changes nothing. */
  lemma StepRefinesPlain(p: Params, s: State, i: In, a: BitVec)
    requires Inv(p, s) && ValidIn(p, i) && |a| == p.addrWidth
    ensures Full(p, Next(p, s, i))
    ensures Plain(p, Next(p, s, i), a) ==
            if WriteEnD(i) && i.addr == a then Merge(Plain(p, s, a), i.wdata, i.wmask) else Plain(p, s, a)
  {
    var t := Next(p, s, i);
    assert ScrambleAddr(p, a) in s.mem;
    if MacroWrite(s, i) { CommitInvisible(p, s, i, a); }
    if WriteEnD(i) && ScrambleAddr(p, i.addr) == ScrambleAddr(p, a) {
      ScrambleAddrInjective(p, a, i.addr);
    }
  }

  lemma InvKept(p: Params, s: State, i: In)
    requires Inv(p, s) && ValidIn(p, i)
    ensures Inv(p, Next(p, s, i))
  {
    StepRefinesPlain(p, s, i, i.addr);
    if RwCollision(s, i) { OutstandingWord(p, s); }
  }

  // ---------------------------------------------------------------- whole runs

  /** What a plain memory holds at address a after the granted writes of ins, starting from m0. */
  function PlainMemory(p: Params, m0: BitVec -> BitVec, ins: seq<In>, a: BitVec): BitVec
    requires ValidParams(p)
    decreases |ins|
  {
    if ins == [] then m0(a)
    else
      var i := ins[|ins| - 1];
      var before := PlainMemory(p, m0, ins[..|ins| - 1], a);
      if WriteEnD(i) && i.addr == a && |before| == |i.wdata| == |i.wmask|
      then Merge(before, i.wdata, i.wmask) else before
  }

  ghost predicate IsRun(p: Params, run: seq<State>, ins: seq<In>) {
    && |run| == |ins| + 1
    && Reset(p, run[0])
    && (forall k | 0 <= k < |run| :: ValidState(p, run[k]))
    && (forall k | 0 <= k < |ins| :: ValidIn(p, ins[k]) && run[k + 1] == Next(p, run[k], ins[k]))
  }

  lemma RunInv(p: Params, run: seq<State>, ins: seq<In>, k: nat)
    requires IsRun(p, run, ins) && k < |run|
    ensures Inv(p, run[k])
  {
    var inv := s => Inv(p, s);
    var step := (s, i, t) => ValidParams(p) && ValidState(p, s) && ValidIn(p, i) && t == Next(p, s, i);
    forall s, i, t | inv(s) && step(s, i, t) ensures inv(t) {
      InvKept(p, s, i);
    }
    Runs.Throughout(inv, step, run, ins, k);
  }

  lemma PlainMemoryStep(p: Params, m0: BitVec -> BitVec, ins: seq<In>, k: nat, a: BitVec)
    requires ValidParams(p) && k < |ins|
    ensures PlainMemory(p, m0, ins[..k + 1], a) ==
            var i, before := ins[k], PlainMemory(p, m0, ins[..k], a);
            if WriteEnD(i) && i.addr == a && |before| == |i.wdata| == |i.wmask|
            then Merge(before, i.wdata, i.wmask) else before
  {
    assert ins[..k + 1][..k] == ins[..k];
  }

  /** The state of a run always represents the plain memory of the writes granted so far. */
  lemma {:induction false} RunIsPlainMemory(p: Params, m0: BitVec -> BitVec, run: seq<State>, ins: seq<In>,
                                            k: nat, a: BitVec)
    requires IsRun(p, run, ins) && k < |run| && |a| == p.addrWidth
    requires ScrambleAddr(p, a) in run[0].mem && m0(a) == Plain(p, run[0], a)
    ensures ScrambleAddr(p, a) in run[k].mem && PlainMemory(p, m0, ins[..k], a) == Plain(p, run[k], a)
    decreases k
  {
    if k > 0 {
      RunIsPlainMemory(p, m0, run, ins, k - 1, a);
      RunInv(p, run, ins, k - 1);
      StepRefinesPlain(p, run[k - 1], ins[k - 1], a);
      PlainMemoryStep(p, m0, ins, k - 1, a);
    }
  }

  /** In every run, a read granted in cycle k answers in cycle k + 1, and only then, with exactly
      what the earlier granted writes left at its address; the in-flight and parked flags are
      never both set. */
  lemma ReadsReturnLatestWrites(p: Params, m0: BitVec -> BitVec, run: seq<State>, ins: seq<In>, k: nat)
    requires IsRun(p, run, ins) && k < |ins|
    requires ScrambleAddr(p, ins[k].addr) in run[0].mem
    requires m0(ins[k].addr) == Plain(p, run[0], ins[k].addr)
    ensures run[k + 1].rvalid <==> ReadEn(ins[k])
    ensures ReadEn(ins[k]) ==> RdataOut(p, run[k + 1]) == PlainMemory(p, m0, ins[..k], ins[k].addr)
    ensures !(run[k].writeEn && run[k].pending)
  {
    RunInv(p, run, ins, k);
    RunInv(p, run, ins, k + 1);
    RunIsPlainMemory(p, m0, run, ins, k, ins[k].addr);
  }

  // ---------------------------------------------------------------- the clocked object

  class Ram {
    const p: Params
    var writeEn: bool
    var pending: bool
    var collision: bool
    var rvalid: bool
    var waddrScr: BitVec
    var wmask: BitVec
    var wdata: BitVec
    var wdataScr: BitVec
    var mem: map<BitVec, BitVec>
    var rdataScr: BitVec
    var ksAddr: BitVec
    ghost var waddr: BitVec
    ghost var expected: BitVec

    ghost function Now(): State
      reads this
    {
      State(writeEn, pending, collision, rvalid, waddrScr, wmask, wdata, wdataScr, mem, rdataScr,
            ksAddr, waddr, expected)
    }

    /** One rising clock edge. */
    method Clock(i: In)
      requires Inv(p, Now()) && ValidIn(p, i)
      modifies this
      ensures Now() == Next(p, old(Now()), i)
    {
      ghost var s := Now();
      MacroCycle(i, s);
      HoldingRegisters(i, s);
      ResponseRegisters(i, s);
    }

    /** The response flag and the address that PRINCE has accepted. */
    method ResponseRegisters(i: In, ghost s: State)
      requires ValidState(p, s) && ValidIn(p, i) && ksAddr == s.ksAddr
      modifies `rvalid, `ksAddr
      ensures var t := Next(p, s, i); rvalid == t.rvalid && ksAddr == t.ksAddr
    {
      rvalid := Gnt(i) && !i.write;
      if Gnt(i) { ksAddr := i.addr; }
    }

    /** The RAM macro: a read if one comes in, else the outstanding write. */
    method MacroCycle(i: In, ghost s: State)
      requires s == Now() && Inv(p, s) && ValidIn(p, i)
      modifies `mem, `rdataScr, `expected
      ensures var t := Next(p, s, i);
              mem == t.mem && rdataScr == t.rdataScr && expected == t.expected
    {
      var addrScr := ScrambleAddr(p, i.addr);
      if Gnt(i) && !i.write {
        expected := Plain(p, Now(), i.addr);
        rdataScr := mem[addrScr];
      } else if writeEn || pending {
        var toWrite := if pending then wdataScr else Encrypt(p, wdata, ksAddr);
        mem := mem[waddrScr := Merge(mem[waddrScr], toWrite, wmask)];
      }
    }

    /** The pending-write flags and the write holding registers. */
    method HoldingRegisters(i: In, ghost s: State)
      requires ValidState(p, s) && ValidIn(p, i)
      requires writeEn == s.writeEn && pending == s.pending && ksAddr == s.ksAddr && waddr == s.waddr
      requires waddrScr == s.waddrScr && wmask == s.wmask && wdata == s.wdata && wdataScr == s.wdataScr
      modifies `writeEn, `pending, `collision, `waddrScr, `wmask, `wdata, `wdataScr, `waddr
      ensures var t := Next(p, s, i);
              && writeEn == t.writeEn && pending == t.pending && collision == t.collision
              && waddrScr == t.waddrScr && wmask == t.wmask && wdata == t.wdata
              && wdataScr == t.wdataScr && waddr == t.waddr
    {
      var addrScr := ScrambleAddr(p, i.addr);
      var readEn := Gnt(i) && !i.write;
      var rwCollision := writeEn && readEn;
      collision := (writeEn || pending) && readEn && addrScr == waddrScr;
      if rwCollision { wdataScr := Encrypt(p, wdata, ksAddr); }
      pending := if (writeEn || pending) && !readEn then false else if rwCollision then true else pending;
      writeEn := Gnt(i) && i.write;
      if writeEn {
        waddrScr, wmask, wdata, waddr := addrScr, i.wmask, i.wdata, i.addr;
      }
    }

    /** rvalid_o and rdata_o in the current cycle: the answer to the read granted before. */
    method Response() returns (valid: bool, rdata: BitVec)
      requires Inv(p, Now())
      ensures valid == rvalid && (valid ==> rdata == expected)
    {
      valid, rdata := rvalid, Zeros(p.width);
      if rvalid {
        rdata := Decrypt(p, rdataScr, ksAddr);
        if collision { rdata := Merge(rdata, wdata, wmask); }
      }
    }
  }
}
