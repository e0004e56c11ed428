/** mem_area.cc: word-by-word access to a memory of the simulated design. */
module MemAreas {
  import opened RangedMaps
  import opened StagedMemory

  /** SV_MEM_WIDTH_BYTES */
  const MINIBUF_BYTES := 40

  type Word = seq<Byte>

  /** How an access ends: done, or refused because there is no such scope or no such word. */
  datatype Outcome = Done | NoScope(scope: string) | SetFailed(byteOffset: nat) | GetFailed(wordIndex: nat)

  /** A memory of the design as its C++ handle describes it. */
  datatype MemArea = MemArea(scope: string, numWords: nat, widthByte: nat) {
    /** The constructor's assertions, with the documented positive width. */
    predicate Valid() {
      0 < numWords < U32 && 0 < widthByte <= MINIBUF_BYTES
    }

    /** An unsigned 32-bit product. */
    function SizeBytes(): (r: nat)
      ensures r < U32
    {
      (numWords * widthByte) % U32
    }
  }

  /** The simulated memories, by scope, that simutil_set_mem and simutil_get_mem reach. */
  class Simulation {
    var mems: map<string, seq<Word>>

    constructor (mems: map<string, seq<Word>>)
      ensures this.mems == mems
    {
      this.mems := mems;
    }
  }

  /** Where the simulation has the memory, its words are as wide as the handle says. */
  predicate Matches(area: MemArea, mems: map<string, seq<Word>>) {
    && area.Valid()
    && (area.scope in mems ==> forall k | 0 <= k < |mems[area.scope]| :: |mems[area.scope][k]| == area.widthByte)
  }

  /** The simulation has the memory, with the number of words and the width the handle says. */
  predicate Connected(area: MemArea, mems: map<string, seq<Word>>) {
    Matches(area, mems) && area.scope in mems && |mems[area.scope]| == area.numWords
  }

  /** The words of the memory, none when the simulation does not have it. */
  function Words(area: MemArea, mems: map<string, seq<Word>>): seq<Word> {
    if area.scope in mems then mems[area.scope] else []
  }

  /** The memories with new words for one of them, if the simulation has it. */
  function Put(mems: map<string, seq<Word>>, scope: string, words: seq<Word>): map<string, seq<Word>> {
    if scope in mems then mems[scope := words] else mems
  }

  /** How many of n words from off on lie in a memory of a size, up to the first that does not. */
  function Taken(size: nat, off: nat, n: nat): (t: nat)
    ensures t <= n && (t < n <==> off + n > size && n > 0)
    ensures t > 0 ==> off + t <= size
    ensures t < n ==> off + t >= size
  {
    if off + n <= size then n else if off < size then size - off else 0
  }

  function NumWords(len: nat, width: nat): nat
    requires width > 0
  {
    (len + width - 1) / width
  }

  /** Word i of a vector of bytes; the last word is extended with zeros. */
  function WordOf(data: seq<Byte>, width: nat, i: nat): (w: Word)
    ensures |w| == width
  {
    seq(width, j requires 0 <= j < width => if i * width + j < |data| then data[i * width + j] else 0)
  }

  /** A memory in which n words from off on hold the first n words of the data. */
  function WrittenUpTo(mem: seq<Word>, off: nat, data: seq<Byte>, width: nat, n: nat): (r: seq<Word>)
    ensures |r| == |mem|
  {
    seq(|mem|, k requires 0 <= k < |mem| => if off <= k < off + n then WordOf(data, width, k - off) else mem[k])
  }

  /** A memory after data has been written from word offset off on. */
  function Written(mem: seq<Word>, off: nat, data: seq<Byte>, width: nat): (r: seq<Word>)
    requires width > 0
    ensures |r| == |mem|
  {
    WrittenUpTo(mem, off, data, width, NumWords(|data|, width))
  }

  lemma WrittenWidth(mem: seq<Word>, off: nat, data: seq<Byte>, width: nat, n: nat, k: nat)
    requires k < |mem| && |mem[k]| == width
    ensures |WrittenUpTo(mem, off, data, width, n)[k]| == width
  {
    var w := WrittenUpTo(mem, off, data, width, n)[k];
    assert w == if off <= k < off + n then WordOf(data, width, k - off) else mem[k];
  }

  lemma Quotient(a: nat, width: nat)
    requires width > 0
    ensures a / width * width <= a < a / width * width + width
  {
  }

  lemma WordFits(len: nat, width: nat, i: nat)
    requires width > 0 && i < NumWords(len, width)
    ensures i * width < len
  {
    var n := NumWords(len, width);
    Quotient(len + width - 1, width);
    assert (i + 1) * width <= n * width;
    assert (i + 1) * width == i * width + width;
  }

  lemma WordsCover(len: nat, width: nat, i: nat)
    requires width > 0 && i * width < len
    ensures i < NumWords(len, width)
  {
    var n := NumWords(len, width);
    Quotient(len + width - 1, width);
    assert n <= i ==> n * width <= i * width;
  }

  /** WriteBuffer: the next word into the mini buffer, cleared first when the data runs short. */
  method WriteBuffer(area: MemArea, buf: seq<Byte>, data: seq<Byte>, i: nat) returns (r: seq<Byte>)
    requires area.Valid() && |buf| == MINIBUF_BYTES && i * area.widthByte < |data|
    ensures |r| == MINIBUF_BYTES && r[..area.widthByte] == WordOf(data, area.widthByte, i)
  {
    var startIdx := i * area.widthByte;
    var wordsLeft := |data| - startIdx;
    var toCopy := if wordsLeft < area.widthByte then wordsLeft else area.widthByte;
    r := buf;
    if toCopy < area.widthByte {
      r := seq(MINIBUF_BYTES, _ => 0);
    }
    r := data[startIdx..startIdx + toCopy] + r[toCopy..];
  }

  /** Why the simulation refuses to set a word; the message has the byte offset in 32 bits. */
  function SetRefusal(area: MemArea, mems: map<string, seq<Word>>, word: nat): Outcome {
    if area.scope !in mems then NoScope(area.scope) else SetFailed(word * area.widthByte % U32)
  }

  /** simutil_set_mem: only the bits of the memory's width are used. */
  method WriteFromMinibuf(sim: Simulation, area: MemArea, phys: nat, buf: seq<Byte>) returns (r: Outcome)
    requires area.Valid() && |buf| == MINIBUF_BYTES
    modifies sim
    ensures r == if phys < |Words(area, old(sim.mems))| then Done else SetRefusal(area, old(sim.mems), phys)
    ensures sim.mems == if r.Done?
                        then old(sim.mems)[area.scope := old(sim.mems)[area.scope][phys := buf[..area.widthByte]]]
                        else old(sim.mems)
  {
    if area.scope !in sim.mems {
      return NoScope(area.scope);
    }
    if phys >= |sim.mems[area.scope]| {
      return SetFailed(phys * area.widthByte % U32);
    }
    sim.mems := sim.mems[area.scope := sim.mems[area.scope][phys := buf[..area.widthByte]]];
    return Done;
  }

  /** MemArea::Write: every word of the data, the last one zero-extended, and nothing else; it stops at
      the first word that the simulation refuses. */
  method Write(sim: Simulation, area: MemArea, wordOffset: nat, data: seq<Byte>) returns (r: Outcome)
    requires Matches(area, sim.mems)
    requires wordOffset + NumWords(|data|, area.widthByte) <= area.numWords
    modifies sim
    ensures Matches(area, sim.mems)
    ensures var mem, n := Words(area, old(sim.mems)), NumWords(|data|, area.widthByte);
            var t := Taken(|mem|, wordOffset, n);
            && r == (if t == n then Done else SetRefusal(area, old(sim.mems), wordOffset + t))
            && sim.mems == Put(old(sim.mems), area.scope, WrittenUpTo(mem, wordOffset, data, area.widthByte, t))
  {
    ghost var before := sim.mems;
    ghost var mem := Words(area, sim.mems);
    ghost var width := area.widthByte;
    var minibuf := seq(MINIBUF_BYTES, _ => 0);
    var dataWords := NumWords(|data|, area.widthByte);
    ghost var t := Taken(|mem|, wordOffset, dataWords);
    r := Done;
    assert WrittenUpTo(mem, wordOffset, data, width, 0) == mem;
    for i := 0 to dataWords
      invariant r == Done && |minibuf| == MINIBUF_BYTES && i <= t
      invariant sim.mems == Put(before, area.scope, WrittenUpTo(mem, wordOffset, data, width, i))
    {
      var dstWord := wordOffset + i;
      WordFits(|data|, width, i);
      minibuf := WriteBuffer(area, minibuf, data, i);
      r := WriteFromMinibuf(sim, area, dstWord, minibuf);
      if r != Done {
        WidthsKept(area, before, wordOffset, data, t);
        return;
      }
      assert WrittenUpTo(mem, wordOffset, data, width, i + 1) ==
             WrittenUpTo(mem, wordOffset, data, width, i)[dstWord := WordOf(data, width, i)];
    }
    WidthsKept(area, before, wordOffset, data, t);
  }

  lemma WidthsKept(area: MemArea, mems: map<string, seq<Word>>, off: nat, data: seq<Byte>, t: nat)
    requires Matches(area, mems)
    ensures Matches(area, Put(mems, area.scope, WrittenUpTo(Words(area, mems), off, data, area.widthByte, t)))
  {
    if area.scope in mems {
      var mem := mems[area.scope];
      var after := WrittenUpTo(mem, off, data, area.widthByte, t);
      forall k | 0 <= k < |after| ensures |after[k]| == area.widthByte {
        WrittenWidth(mem, off, data, area.widthByte, t, k);
      }
      assert Put(mems, area.scope, after)[area.scope] == after;
    }
  }

  /** The bytes of n words from word off on. */
  function Concat(mem: seq<Word>, off: nat, n: nat): seq<Byte>
    requires off + n <= |mem|
  {
    if n == 0 then [] else Concat(mem, off, n - 1) + mem[off + n - 1]
  }

  /** MemArea::Read: the bytes of the words in order, unless the simulation refuses one. */
  method Read(sim: Simulation, area: MemArea, wordOffset: nat, numWords: nat) returns (r: Outcome, ret: seq<Byte>)
    requires Matches(area, sim.mems) && wordOffset + numWords <= area.numWords
    ensures var mem := Words(area, sim.mems);
            var t := Taken(|mem|, wordOffset, numWords);
            && r == (if t == numWords then Done
                     else if area.scope !in sim.mems then NoScope(area.scope) else GetFailed(wordOffset + t))
            && (r.Done? && numWords > 0 ==> ret == Concat(mem, wordOffset, numWords))
            && (r.Done? && numWords == 0 ==> ret == [])
  {
    ghost var mem := Words(area, sim.mems);
    r, ret := Done, [];
    for i := 0 to numWords
      invariant i <= Taken(|mem|, wordOffset, numWords)
      invariant r == Done && if i == 0 then ret == [] else ret == Concat(mem, wordOffset, i)
    {
      var srcWord := wordOffset + i;
      if area.scope !in sim.mems {
        r := NoScope(area.scope);
        return;
      }
      if srcWord >= |sim.mems[area.scope]| {
        r := GetFailed(srcWord);
        return;
      }
      ret := ret + sim.mems[area.scope][srcWord];
    }
  }

  lemma {:induction false} ConcatIsData(mem: seq<Word>, off: nat, data: seq<Byte>, width: nat, n: nat, end: nat)
    requires width > 0 && end == n * width <= |data| && off + NumWords(|data|, width) <= |mem|
    requires off + n <= |mem|
    ensures Concat(Written(mem, off, data, width), off, n) == data[..end]
    decreases n
  {
    if n > 0 {
      var at := (n - 1) * width;
      OneLess(n, width);
      ConcatIsData(mem, off, data, width, n - 1, at);
      WordWritten(mem, off, data, width, n - 1, at);
      assert data[..end] == data[..at] + data[at..end];
    }
  }

  lemma OneLess(n: nat, width: nat)
    requires n > 0
    ensures (n - 1) * width >= 0 && n * width == (n - 1) * width + width
  {
  }

  /** Word k after a write is the slice of the data that starts at byte k * width. */
  lemma WordWritten(mem: seq<Word>, off: nat, data: seq<Byte>, width: nat, k: nat, at: nat)
    requires width > 0 && at == k * width && at + width <= |data|
    requires off + NumWords(|data|, width) <= |mem|
    ensures off + k < |mem| && Written(mem, off, data, width)[off + k] == data[at..at + width]
  {
    WordsCover(|data|, width, k);
    WordIsSlice(data, width, k, at);
  }

  lemma WordIsSlice(data: seq<Byte>, width: nat, k: nat, at: nat)
    requires at == k * width && at + width <= |data|
    ensures WordOf(data, width, k) == data[at..at + width]
  {
  }

  /** Reading back what was just written returns it, for data of whole words. */
  lemma ReadAfterWrite(mem: seq<Word>, off: nat, data: seq<Byte>, width: nat)
    requires width > 0 && |data| % width == 0 && off + NumWords(|data|, width) <= |mem|
    ensures Concat(Written(mem, off, data, width), off, NumWords(|data|, width)) == data
  {
    var n := |data| / width;
    assert n * width == |data|;
    WordCount(n, width);
    ConcatIsData(mem, off, data, width, n, |data|);
  }

  lemma WordCount(n: nat, width: nat)
    requires width > 0
    ensures NumWords(n * width, width) == n
  {
    if n > 0 {
      WordsCover(n * width, width, n - 1);
      assert (n - 1) * width == n * width - width;
    }
    if NumWords(n * width, width) > n { WordFits(n * width, width, n); assert false; }
  }
}
