/** Parameters, addresses and data words of the instruction cache (ibex_pkg and ibex_icache). */
module IcacheTypes {

  /** A 16-bit halfword; its two low bits tell a compressed instruction from a 32-bit one. */
  type Half = h: nat | h < 0x1_0000 witness 0

  /** One bus beat, as its low and high halfwords. */
  datatype Word = Word(lo: Half, hi: Half)

  const ZERO_WORD := Word(0, 0)

  /** numFb is NUM_FB, beats is IC_LINE_BEATS, lines is the number of cache lines in the
      address space, sets is IC_NUM_LINES, ways is IC_NUM_WAYS, branchCache is BranchCache. */
  datatype Config = Config(numFb: nat, beats: nat, lines: nat, sets: nat, ways: nat,
                           branchCache: bool)

  type Cfg = c: Config | 2 <= c.numFb && 2 <= c.beats && 1 <= c.lines && 1 <= c.sets && 1 <= c.ways
    witness Config(4, 2, 0x2000_0000, 256, 2, false)

  /** A word address split the way the RTL slices it: line number and beat within the line. */
  datatype WordAddr = WordAddr(line: nat, off: nat)

  /** A halfword address: addr[ADDR_W-1:1]. */
  datatype Addr = Addr(word: WordAddr, upper: bool)

  predicate ValidWordAddr(c: Cfg, a: WordAddr) {
    a.line < c.lines && a.off < c.beats
  }

  /** The address counters are ADDR_W bits wide, so the last line is followed by line 0. */
  function NextLine(c: Cfg, line: nat): nat {
    if line + 1 < c.lines then line + 1 else 0
  }

  function NextWord(c: Cfg, a: WordAddr): WordAddr {
    if a.off + 1 < c.beats then WordAddr(a.line, a.off + 1) else WordAddr(NextLine(c, a.line), 0)
  }

  function NextHalf(c: Cfg, a: Addr): Addr {
    if a.upper then Addr(NextWord(c, a.word), false) else Addr(a.word, true)
  }

  /** The beat counters are IC_LINE_BEATS_W + 1 bits wide and wrap at twice the line length. */
  function Wrap(c: Cfg, n: nat): nat {
    if n < 2 * c.beats then n else n - 2 * c.beats
  }

  /** The counter n after adding a single bit. */
  function Bump(c: Cfg, n: nat, bit: bool): nat {
    if bit then Wrap(c, n + 1) else n
  }

  /** The low IC_LINE_BEATS_W bits of a beat counter. */
  function LowBits(c: Cfg, n: nat): nat {
    if n < c.beats then n else n - c.beats
  }

  /** addr[IC_INDEX_HI:IC_LINE_W] */
  function Index(c: Cfg, line: nat): (i: nat)
    ensures i < c.sets
  {
    line % c.sets
  }

  /** addr[ADDR_W-1:IC_INDEX_HI+1] */
  function Tag(c: Cfg, line: nat): nat {
    line / c.sets
  }

  /** Index and tag together identify a line. */
  lemma LineFromTagAndIndex(c: Cfg, a: nat, b: nat)
    requires Index(c, a) == Index(c, b) && Tag(c, a) == Tag(c, b)
    ensures a == b
  {
    assert a == c.sets * Tag(c, a) + Index(c, a);
    assert b == c.sets * Tag(c, b) + Index(c, b);
  }

  /** The lowest member of a bit vector, or n when there is none below n. */
  function Lowest(n: nat, v: set<nat>): (r: nat)
    ensures r <= n && (r < n ==> r in v) && forall k | 0 <= k < r :: k !in v
  {
    if n == 0 then 0
    else
      var r := Lowest(n - 1, v);
      if r < n - 1 then r else if n - 1 in v then n - 1 else n
  }
}
