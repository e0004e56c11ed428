/** The output stage of ibex_icache.sv: the skid buffer that cuts a stream of 32-bit words into
    16-bit and 32-bit instructions, and the address counter of the IF stage. */
module Aligner {
  import opened IcacheTypes

  /** output_addr_q, skid_valid_q, skid_data_q and skid_err_q. */
  datatype Align = Align(pc: Addr, skidValid: bool, skidData: Half, skidErr: bool)

  /** The cycle's inputs: the core's ready and branch, and the selected word, if data_valid. */
  datatype AlignIn = AlignIn(ready: bool, branch: bool, target: Addr, dataValid: bool, data: Word, err: bool)

  /** An instruction as handed to the core. */
  datatype Instr = Compressed(pc: Addr, lo: Half) | Full(pc: Addr, lo: Half, hi: Half)

  /** The two low bits of an instruction are 11 exactly when it is 32 bits long. */
  predicate IsCompressed(h: Half) {
    h % 4 != 3
  }

  function DataLo(s: Align, i: AlignIn): Half {
    if s.pc.upper then i.data.hi else i.data.lo
  }

  function DataHi(s: Align, i: AlignIn): Half {
    if s.pc.upper then i.data.lo else i.data.hi
  }

  /** rdata_o[15:0] */
  function RdataLo(s: Align, i: AlignIn): Half {
    if s.skidValid then s.skidData else DataLo(s, i)
  }

  predicate OutputCompressed(s: Align, i: AlignIn) {
    IsCompressed(RdataLo(s, i))
  }

  predicate SkidComplete(s: Align) {
    s.skidValid && (IsCompressed(s.skidData) || s.skidErr)
  }

  predicate SkidReady(s: Align, i: AlignIn) {
    s.pc.upper && !s.skidValid && (!OutputCompressed(s, i) || i.err)
  }

  predicate OutputReady(s: Align, i: AlignIn) {
    (i.ready || SkidReady(s, i)) && !SkidComplete(s)
  }

  /** valid_o */
  predicate Valid(s: Align, i: AlignIn) {
    || SkidComplete(s)
    || (i.dataValid && (!s.pc.upper || s.skidValid || i.err || IsCompressed(i.data.hi)))
  }

  /** err_o */
  predicate Err(s: Align, i: AlignIn) {
    (s.skidValid && s.skidErr) || (!SkidComplete(s) && i.err)
  }

  predicate NextSkidValid(s: Align, i: AlignIn) {
    if i.branch then false
    else if s.skidValid then !(i.ready && (IsCompressed(s.skidData) || s.skidErr))
    else i.dataValid && (if s.pc.upper then !OutputCompressed(s, i) || i.err
                         else OutputCompressed(s, i) && !i.err && i.ready)
  }

  /** The instruction address after the edge. */
  function NextPc(c: Cfg, s: Align, i: AlignIn): Addr {
    if i.branch then i.target
    else if !(i.ready && Valid(s, i)) then s.pc
    else if OutputCompressed(s, i) && !Err(s, i) then NextHalf(c, s.pc)
    else NextHalf(c, NextHalf(c, s.pc))
  }

  function Next(c: Cfg, s: Align, i: AlignIn): Align {
    var skidEn := i.dataValid && (i.ready || SkidReady(s, i));
    Align(NextPc(c, s, i), NextSkidValid(s, i),
          if skidEn then i.data.hi else s.skidData,
          if skidEn then i.err else s.skidErr)
  }

  /** valid_o with ready_i: what the core receives in this cycle. */
  predicate Handed(s: Align, i: AlignIn) {
    i.ready && Valid(s, i)
  }

  /** What the core receives: addr_o and rdata_o, whose length the core reads off the low bits. */
  function Output(s: Align, i: AlignIn): Instr {
    if OutputCompressed(s, i) then Compressed(s.pc, RdataLo(s, i))
    else Full(s.pc, RdataLo(s, i), DataHi(s, i))
  }

  // ---------------------------------------------------------------- specification

  function HalfAt(mem: WordAddr -> Word, a: Addr): Half {
    if a.upper then mem(a.word).hi else mem(a.word).lo
  }

  /** The instruction that starts at a, by the instruction-length encoding. */
  function InstrAt(c: Cfg, mem: WordAddr -> Word, a: Addr): Instr {
    if IsCompressed(HalfAt(mem, a)) then Compressed(a, HalfAt(mem, a))
    else Full(a, HalfAt(mem, a), HalfAt(mem, NextHalf(c, a)))
  }

  function After(c: Cfg, x: Instr): Addr {
    if x.Compressed? then NextHalf(c, x.pc) else NextHalf(c, NextHalf(c, x.pc))
  }

  /** The word the output stage needs next. */
  function Cursor(c: Cfg, s: Align): WordAddr {
    if s.skidValid then NextWord(c, s.pc.word) else s.pc.word
  }

  /** The skid buffer, when full, holds the halfword at the current address. */
  predicate InSync(mem: WordAddr -> Word, s: Align) {
    s.skidValid ==> s.pc.upper && s.skidData == mem(s.pc.word).hi && !s.skidErr
  }

  /** Word by word, the stage keeps its place in the stream: it consumes exactly the word at the
      cursor, hands over exactly the instruction at its address and moves past it. */
  lemma StepKeepsPlace(c: Cfg, mem: WordAddr -> Word, s: Align, i: AlignIn)
    requires InSync(mem, s)
    requires i.dataValid ==> i.data == mem(Cursor(c, s)) && !i.err
    ensures InSync(mem, Next(c, s, i))
    ensures Valid(s, i) ==> !Err(s, i) && Output(s, i) == InstrAt(c, mem, s.pc)
    ensures !i.branch ==>
              && Next(c, s, i).pc == (if Handed(s, i) then After(c, InstrAt(c, mem, s.pc)) else s.pc)
              && Cursor(c, Next(c, s, i)) ==
                 (if i.dataValid && OutputReady(s, i) then NextWord(c, Cursor(c, s)) else Cursor(c, s))
    ensures i.branch ==> Next(c, s, i).pc == i.target && Cursor(c, Next(c, s, i)) == i.target.word
  {
  }
}
