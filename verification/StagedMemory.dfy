/** Staged segments (StagedMem, MergeSegments in dpi_memutil): an interval map of byte vectors that
    refines a flat, partial map from addresses to bytes. */
module StagedMemory {
  import opened RangedMaps

  type Byte = b: nat | b < 0x100 witness 0

  type Segment = Entry<seq<Byte>>

  /** The vector covers its range exactly. */
  predicate Fits(e: Segment) {
    e.rng.lo <= e.rng.hi && |e.val| == e.rng.hi - e.rng.lo + 1
  }

  predicate AllFit(es: seq<Segment>) {
    forall k | 0 <= k < |es| :: Fits(es[k])
  }

  /** std::vector::resize */
  function Resize(v: seq<Byte>, n: nat): (r: seq<Byte>)
    ensures |r| == n
  {
    if n <= |v| then v[..n] else v + seq(n - |v|, _ => 0)
  }

  /** What the assertions of MergeSegments demand of its arguments. */
  predicate CanMerge(rng0: Range, seg0: seq<Byte>, rng1: Range, seg1: seq<Byte>) {
    Fits(Entry(rng0, seg0)) && Fits(Entry(rng1, seg1)) && Overlaps(rng0, rng1)
  }

  /** Merge two overlapping segments; the bytes of seg1 win. */
  function MergeSegments(rng0: Range, seg0: seq<Byte>, rng1: Range, seg1: seq<Byte>): (r: seq<Byte>)
    requires CanMerge(rng0, seg0, rng1, seg1)
  {
    if rng1.lo <= rng0.lo && rng0.hi <= rng1.hi then
      seg1
    else
      var hull := Hull(rng0, rng1);
      var newLen := 1 + (hull.hi - hull.lo);
      if rng1.lo <= rng0.lo then
        var srcOff := 1 + (rng1.hi - rng0.lo);
        Resize(seg1, newLen)[..|seg1|] + seg0[srcOff..srcOff + (rng0.hi - rng1.hi)]
      else
        var off := rng1.lo - rng0.lo;
        var ret := Resize(seg0, newLen);
        ret[..off] + seg1 + ret[off + |seg1|..]
  }

  /** MergeSegments as the map calls it; the source aborts outside its assertions. */
  function Merge(rng0: Range, seg0: seq<Byte>, rng1: Range, seg1: seq<Byte>): seq<Byte> {
    if CanMerge(rng0, seg0, rng1, seg1) then MergeSegments(rng0, seg0, rng1, seg1) else seg1
  }

  /** The segment that holds these bytes from an offset on. */
  function SegmentAt(offset: nat, seg: seq<Byte>): (e: Segment)
    requires seg != []
    ensures Fits(e)
  {
    Entry(Range(offset, offset + |seg| - 1), seg)
  }

  /** The byte staged at an address, if any. */
  function ByteAt(es: seq<Segment>, a: nat): Option<Byte>
    requires AllFit(es)
  {
    if es == [] then None
    else if es[0].rng.Has(a) then Some(es[0].val[a - es[0].rng.lo])
    else ByteAt(es[1..], a)
  }

  lemma {:induction false} ByteAtCat(x: seq<Segment>, y: seq<Segment>, a: nat)
    requires AllFit(x) && AllFit(y)
    ensures AllFit(x + y)
    ensures ByteAt(x + y, a) == if ByteAt(x, a).Some? then ByteAt(x, a) else ByteAt(y, a)
  {
    if x == [] {
      assert x + y == y;
    } else {
      assert (x + y)[1..] == x[1..] + y;
      ByteAtCat(x[1..], y, a);
    }
  }

  /** A byte is staged exactly where some entry's range has the address. */
  lemma {:induction false} ByteAtHolds(es: seq<Segment>, k: nat, a: nat)
    requires AllFit(es) && Disjoint(es) && Holds(es, k, a)
    ensures ByteAt(es, a) == Some(es[k].val[a - es[k].rng.lo])
  {
    if k > 0 {
      HolderNotFirst(es, k, a);
      SliceDisjoint(es, 1, |es|);
      ByteAtHolds(es[1..], k - 1, a);
    }
  }

  lemma HolderNotFirst(es: seq<Segment>, k: nat, a: nat)
    requires Disjoint(es) && 0 < k && Holds(es, k, a)
    ensures !es[0].rng.Has(a)
  {
    assert es[0].rng.hi < es[k].rng.lo;
  }

  lemma {:induction false} ByteAtSome(es: seq<Segment>, a: nat) returns (k: nat)
    requires AllFit(es) && ByteAt(es, a).Some?
    ensures Holds(es, k, a)
  {
    k := 0;
    if !es[0].rng.Has(a) {
      k := ByteAtSome(es[1..], a);
      k := k + 1;
    }
  }

  lemma NothingStaged(es: seq<Segment>, a: nat)
    requires AllFit(es) && forall k | 0 <= k < |es| :: !Holds(es, k, a)
    ensures ByteAt(es, a) == None
  {
    if ByteAt(es, a).Some? { var k := ByteAtSome(es, a); assert false; }
  }

  /** Merging two segments: the newer bytes where it has any, the older elsewhere. */
  lemma MergeBytes(x: Segment, e: Segment, a: nat)
    requires CanMerge(x.rng, x.val, e.rng, e.val)
    ensures var h := Hull(e.rng, x.rng); var m := Entry(h, Merge(x.rng, x.val, e.rng, e.val));
            && Fits(m)
            && (h.Has(a) <==> x.rng.Has(a) || e.rng.Has(a))
            && (h.Has(a) ==>
                  m.val[a - h.lo] == if e.rng.Has(a) then e.val[a - e.rng.lo] else x.val[a - x.rng.lo])
  {
  }

  /** Merging a new segment with all the entries it hits. */
  lemma {:induction false} FoldBytes(hits: seq<Segment>, e: Segment, a: nat)
    requires AllFit(hits) && Fits(e)
    requires forall k | 0 <= k < |hits| :: Overlaps(hits[k].rng, e.rng)
    ensures var f := Fold(hits, e, Merge);
            && Fits(f)
            && (f.rng.Has(a) <==> e.rng.Has(a) || ByteAt(hits, a).Some?)
            && (f.rng.Has(a) ==>
                  Some(f.val[a - f.rng.lo]) ==
                  if e.rng.Has(a) then Some(e.val[a - e.rng.lo]) else ByteAt(hits, a))
    decreases |hits|
  {
    if hits != [] {
      var x := hits[0];
      var m := Entry(Hull(e.rng, x.rng), Merge(x.rng, x.val, e.rng, e.val));
      MergeBytes(x, e, a);
      assert forall k | 0 <= k < |hits[1..]| :: hits[1..][k] == hits[1 + k];
      FoldBytes(hits[1..], m, a);
    }
  }

  /** The merged range stays within any bounds that its parts respect. */
  lemma {:induction false} FoldLower(hits: seq<Segment>, e: Segment, lo: nat)
    requires lo <= e.rng.lo && forall k | 0 <= k < |hits| :: lo <= hits[k].rng.lo
    ensures lo <= Fold(hits, e, Merge).rng.lo
    decreases |hits|
  {
    if hits != [] {
      var x := hits[0];
      FoldLower(hits[1..], Entry(Hull(e.rng, x.rng), Merge(x.rng, x.val, e.rng, e.val)), lo);
    }
  }

  lemma {:induction false} FoldUpper(hits: seq<Segment>, e: Segment, hi: int)
    requires e.rng.hi <= hi && forall k | 0 <= k < |hits| :: hits[k].rng.hi <= hi
    ensures Fold(hits, e, Merge).rng.hi <= hi
    decreases |hits|
  {
    if hits != [] {
      var x := hits[0];
      FoldUpper(hits[1..], Entry(Hull(e.rng, x.rng), Merge(x.rng, x.val, e.rng, e.val)), hi);
    }
  }

  predicate Aligned(es: seq<Segment>, width: nat)
    requires width > 0
  {
    forall k | 0 <= k < |es| :: es[k].rng.lo % width == 0
  }

  /** Merging keeps segment starts word-aligned. */
  lemma {:induction false} FoldAligned(hits: seq<Segment>, e: Segment, width: nat)
    requires width > 0 && Aligned(hits, width) && e.rng.lo % width == 0
    ensures Fold(hits, e, Merge).rng.lo % width == 0
    decreases |hits|
  {
    if hits != [] {
      var x := hits[0];
      FoldAligned(hits[1..], Entry(Hull(e.rng, x.rng), Merge(x.rng, x.val, e.rng, e.val)), width);
    }
  }

  // ---------------------------------------------------------------- Emplace as overwriting

  lemma HitsOverlap(es: seq<Segment>, e: Segment)
    requires Disjoint(es) && Fits(e)
    ensures forall k | From(es, e.rng) <= k < To(es, e.rng) :: Overlaps(es[k].rng, e.rng)
    ensures forall k | 0 <= k < From(es, e.rng) :: es[k].rng.hi < e.rng.lo
    ensures forall k | To(es, e.rng) <= k < |es| :: e.rng.hi < es[k].rng.lo
  {
    forall k | From(es, e.rng) <= k < To(es, e.rng) ensures Overlaps(es[k].rng, e.rng) {
      HitsAreOverlaps(es, e.rng, k);
    }
    forall k | 0 <= k < From(es, e.rng) ensures es[k].rng.hi < e.rng.lo {
      HitsAreOverlaps(es, e.rng, k);
    }
    forall k | To(es, e.rng) <= k < |es| ensures e.rng.hi < es[k].rng.lo {
      HitsAreOverlaps(es, e.rng, k);
    }
  }

  /** The merged entry lies strictly above the entries kept below it ... */
  lemma FoldAbove(es: seq<Segment>, e: Segment, k: nat)
    requires Disjoint(es) && Fits(e) && k < From(es, e.rng)
    ensures es[k].rng.hi < Fold(es[From(es, e.rng)..To(es, e.rng)], e, Merge).rng.lo
  {
    var a, b := From(es, e.rng), To(es, e.rng);
    HitsOverlap(es, e);
    FoldLower(es[a..b], e, es[k].rng.hi + 1);
  }

  /** ... and strictly below the entries kept above it. */
  lemma FoldBelow(es: seq<Segment>, e: Segment, k: nat)
    requires Disjoint(es) && Fits(e) && To(es, e.rng) <= k < |es|
    ensures Fold(es[From(es, e.rng)..To(es, e.rng)], e, Merge).rng.hi < es[k].rng.lo
  {
    var a, b := From(es, e.rng), To(es, e.rng);
    HitsOverlap(es, e);
    FoldUpper(es[a..b], e, es[k].rng.lo - 1);
  }

  /** Replacing the entries from a up to b by one that lies between its neighbours. */
  lemma ReplaceKeepsShape(es: seq<Segment>, a: nat, b: nat, f: Segment)
    requires Disjoint(es) && AllFit(es) && a <= b <= |es| && Fits(f)
    requires forall k | 0 <= k < a :: es[k].rng.hi < f.rng.lo
    requires forall k | b <= k < |es| :: f.rng.hi < es[k].rng.lo
    ensures Disjoint(es[..a] + [f] + es[b..]) && AllFit(es[..a] + [f] + es[b..])
  {
    SliceDisjoint(es, 0, a);
    SliceDisjoint(es, b, |es|);
    JoinDisjoint(es[..a], f, es[b..]);
  }

  /** The bytes of a map in which the entries from a up to b have been replaced by one. */
  lemma ReplaceBytes(es: seq<Segment>, a: nat, b: nat, f: Segment, addr: nat)
    requires Disjoint(es) && AllFit(es) && a <= b <= |es| && Fits(f)
    requires forall k | 0 <= k < a :: es[k].rng.hi < f.rng.lo
    ensures AllFit(es[..a] + [f] + es[b..])
    ensures ByteAt(es[..a] + [f] + es[b..], addr) ==
            if f.rng.Has(addr) then Some(f.val[addr - f.rng.lo])
            else if ByteAt(es[..a], addr).Some? then ByteAt(es[..a], addr)
            else ByteAt(es[b..], addr)
  {
    var tail := [f] + es[b..];
    assert es[..a] + [f] + es[b..] == es[..a] + tail;
    ByteAtCat(es[..a], tail, addr);
    assert tail[1..] == es[b..];
    if f.rng.Has(addr) { NothingStaged(es[..a], addr); }
  }

  lemma ByteInParts(es: seq<Segment>, a: nat, b: nat, addr: nat)
    requires AllFit(es) && a <= b <= |es|
    ensures ByteAt(es, addr) ==
            if ByteAt(es[..a], addr).Some? then ByteAt(es[..a], addr)
            else if ByteAt(es[a..b], addr).Some? then ByteAt(es[a..b], addr)
            else ByteAt(es[b..], addr)
  {
    assert es == es[..a] + (es[a..b] + es[b..]);
    ByteAtCat(es[..a], es[a..b] + es[b..], addr);
    ByteAtCat(es[a..b], es[b..], addr);
  }

  lemma FoldBetween(es: seq<Segment>, e: Segment)
    requires Disjoint(es) && Fits(e)
    ensures var f := Fold(es[From(es, e.rng)..To(es, e.rng)], e, Merge);
            && (forall k | 0 <= k < From(es, e.rng) :: es[k].rng.hi < f.rng.lo)
            && (forall k | To(es, e.rng) <= k < |es| :: f.rng.hi < es[k].rng.lo)
  {
    var f := Fold(es[From(es, e.rng)..To(es, e.rng)], e, Merge);
    forall k | 0 <= k < From(es, e.rng) ensures es[k].rng.hi < f.rng.lo { FoldAbove(es, e, k); }
    forall k | To(es, e.rng) <= k < |es| ensures f.rng.hi < es[k].rng.lo { FoldBelow(es, e, k); }
  }

  /** Emplace keeps the map disjoint and every vector as long as its range. */
  lemma EmplaceKeepsShape(es: seq<Segment>, e: Segment)
    requires Disjoint(es) && AllFit(es) && Fits(e)
    ensures Disjoint(Emplaced(es, e, Merge)) && AllFit(Emplaced(es, e, Merge))
  {
    var a, b := From(es, e.rng), To(es, e.rng);
    HitsOverlap(es, e);
    FoldBytes(es[a..b], e, 0);
    FoldBetween(es, e);
    ReplaceKeepsShape(es, a, b, Fold(es[a..b], e, Merge));
  }

  /** Emplace overwrites: inside the new range the new bytes, elsewhere what was there before,
      byte or nothing, however many entries were hit. */
  lemma EmplaceOverwrites(es: seq<Segment>, e: Segment, addr: nat)
    requires Disjoint(es) && AllFit(es) && Fits(e)
    ensures AllFit(Emplaced(es, e, Merge))
    ensures ByteAt(Emplaced(es, e, Merge), addr) ==
            if e.rng.Has(addr) then Some(e.val[addr - e.rng.lo]) else ByteAt(es, addr)
  {
    var a, b := From(es, e.rng), To(es, e.rng);
    var f := Fold(es[a..b], e, Merge);
    HitsOverlap(es, e);
    FoldBytes(es[a..b], e, addr);
    FoldBetween(es, e);
    ReplaceBytes(es, a, b, f, addr);
    ByteInParts(es, a, b, addr);
    if f.rng.Has(addr) && !e.rng.Has(addr) { BelowHasNot(es, a, f, addr); }
  }

  lemma BelowHasNot(es: seq<Segment>, a: nat, f: Segment, addr: nat)
    requires AllFit(es) && a <= |es| && f.rng.Has(addr)
    requires forall k | 0 <= k < a :: es[k].rng.hi < f.rng.lo
    ensures ByteAt(es[..a], addr) == None
  {
    NothingStaged(es[..a], addr);
  }

  lemma EmplaceKeepsAlignment(es: seq<Segment>, e: Segment, width: nat)
    requires width > 0 && Disjoint(es) && AllFit(es) && Fits(e)
    requires Aligned(es, width) && e.rng.lo % width == 0
    ensures Aligned(Emplaced(es, e, Merge), width)
  {
    var f, t, r := From(es, e.rng), To(es, e.rng), Emplaced(es, e, Merge);
    FoldAligned(es[f..t], e, width);
    forall k | 0 <= k < |r| ensures r[k].rng.lo % width == 0 {
      if k < f {
        assert r[k] == es[k];
      } else if k > f {
        assert r[k] == es[t + (k - f - 1)];
      }
    }
  }

  // ---------------------------------------------------------------- StagedMem

  const U32 := 0x1_0000_0000

  /** "Once it is nonempty, min / max is the smallest / largest offset with valid data." */
  ghost predicate Bounds(es: seq<Segment>, lo: nat, hi: nat)
    requires AllFit(es)
  {
    if es == [] then lo == U32 - 1 && hi == 0
    else
      && lo <= hi < U32 && ByteAt(es, lo).Some? && ByteAt(es, hi).Some?
      && forall a: nat | ByteAt(es, a).Some? :: lo <= a <= hi
  }

  function Min(a: nat, b: nat): nat { if a < b then a else b }

  function Max(a: nat, b: nat): nat { if a < b then b else a }

  lemma BoundsGrow(es: seq<Segment>, lo: nat, hi: nat, e: Segment)
    requires Disjoint(es) && AllFit(es) && Fits(e) && e.rng.hi < U32 && Bounds(es, lo, hi)
    ensures AllFit(Emplaced(es, e, Merge))
    ensures Bounds(Emplaced(es, e, Merge), Min(lo, e.rng.lo), Max(hi, e.rng.hi))
  {
    var lo', hi' := Min(lo, e.rng.lo), Max(hi, e.rng.hi);
    EmplaceOverwrites(es, e, lo');
    EmplaceOverwrites(es, e, hi');
    forall a: nat | ByteAt(Emplaced(es, e, Merge), a).Some? ensures lo' <= a <= hi' {
      EmplaceOverwrites(es, e, a);
    }
  }

  function OrZero(b: Option<Byte>): Byte {
    if b.Some? then b.value else 0
  }

  /** The contents of a StagedMem as a value. */
  datatype Staged = Staged(minAddr: nat, maxAddr: nat, segs: seq<Segment>)

  const EMPTY := Staged(U32 - 1, 0, [])

  ghost predicate ValidStaged(st: Staged) {
    Disjoint(st.segs) && AllFit(st.segs) && Bounds(st.segs, st.minAddr, st.maxAddr)
  }

  /** StagedMem::AddSegment on values. */
  function Added(st: Staged, offset: nat, seg: seq<Byte>): Staged {
    if seg == [] then st
    else
      Staged(Min(st.minAddr, offset), Max(st.maxAddr, offset + |seg| - 1),
             Emplaced(st.segs, SegmentAt(offset, seg), Merge))
  }

  lemma AddedValid(st: Staged, offset: nat, seg: seq<Byte>)
    requires ValidStaged(st) && offset + |seg| <= U32
    ensures ValidStaged(Added(st, offset, seg))
  {
    if seg != [] {
      var e := SegmentAt(offset, seg);
      EmplaceKeepsShape(st.segs, e);
      BoundsGrow(st.segs, st.minAddr, st.maxAddr, e);
    }
  }

  /** What is staged at one address after adding a segment. */
  lemma AddedAt(st: Staged, offset: nat, seg: seq<Byte>, a: nat)
    requires Disjoint(st.segs) && AllFit(st.segs)
    ensures AllFit(Added(st, offset, seg).segs)
    ensures ByteAt(Added(st, offset, seg).segs, a) ==
            if offset <= a < offset + |seg| then Some(seg[a - offset]) else ByteAt(st.segs, a)
  {
    if seg != [] {
      EmplaceOverwrites(st.segs, SegmentAt(offset, seg), a);
    }
  }

  /** Adding a segment replaces whatever was staged in its range, and the bounds stay exact. */
  lemma AddedOverwrites(st: Staged, offset: nat, seg: seq<Byte>)
    requires ValidStaged(st) && offset + |seg| <= U32
    ensures ValidStaged(Added(st, offset, seg))
    ensures forall a: nat :: ByteAt(Added(st, offset, seg).segs, a) ==
              if offset <= a < offset + |seg| then Some(seg[a - offset]) else ByteAt(st.segs, a)
  {
    AddedValid(st, offset, seg);
    forall a: nat
      ensures ByteAt(Added(st, offset, seg).segs, a) ==
              if offset <= a < offset + |seg| then Some(seg[a - offset]) else ByteAt(st.segs, a)
    {
      AddedAt(st, offset, seg, a);
    }
  }

  /** Staged data for one memory area. */
  class StagedMem {
    var minAddr: nat
    var maxAddr: nat
    const segs: RangedMap<seq<Byte>>

    ghost function Value(): Staged
      reads this, segs
    {
      Staged(minAddr, maxAddr, segs.entries)
    }

    ghost predicate Valid()
      reads this, segs
    {
      ValidStaged(Value())
    }

    constructor ()
      ensures Valid() && fresh(segs) && Value() == EMPTY
    {
      minAddr, maxAddr := U32 - 1, 0;
      segs := new RangedMap();
    }

    /** Stage a segment. */
    method AddSegment(offset: nat, seg: seq<Byte>)
      requires Valid() && offset + |seg| <= U32
      modifies this, segs
      ensures Valid() && Value() == Added(old(Value()), offset, seg)
    {
      ghost var before := Value();
      Stage(offset, seg);
      AddedValid(before, offset, seg);
    }

    method Stage(offset: nat, seg: seq<Byte>)
      requires Disjoint(segs.entries) && offset + |seg| <= U32
      modifies this, segs
      ensures Value() == Added(old(Value()), offset, seg)
    {
      if seg == [] {
        return;
      }
      var segTop := offset + |seg| - 1;
      assert SegmentAt(offset, seg) == Entry(Range(offset, segTop), seg);
      minAddr := Min(minAddr, offset);
      maxAddr := Max(maxAddr, segTop);
      segs.Emplace(offset, segTop, seg, Merge);
    }

    /** The staged bytes from the lowest to the highest as one vector, with zeros between the
        segments. With nothing staged the unsigned length computation wraps to two bytes. */
    method GetFlat() returns (ret: seq<Byte>)
      requires Valid()
      ensures segs.entries != [] ==> |ret| == maxAddr - minAddr + 1
      ensures segs.entries != [] ==>
                forall k | 0 <= k < |ret| :: ret[k] == OrZero(ByteAt(segs.entries, minAddr + k))
      ensures segs.entries == [] ==> ret == [0, 0]
    {
      var es := segs.entries;
      var len := 1 + (maxAddr - minAddr) % U32;
      ret := seq(len, _ => 0);
      assert es == [] ==> len == 2;
      assert es == [] ==> ret == [0, 0];
      for n := 0 to |es|
        invariant |ret| == len && (es == [] ==> ret == [0, 0])
        invariant es != [] ==> forall k | 0 <= k < len :: ret[k] == OrZero(ByteAt(es[..n], minAddr + k))
      {
        var rng, seg := es[n].rng, es[n].val;
        ByteAtHolds(es, n, rng.lo);
        ByteAtHolds(es, n, rng.hi);
        var off := rng.lo - minAddr;
        ghost var before := ret;
        ret := ret[..off] + seg + ret[off + |seg|..];
        forall k | 0 <= k < len ensures ret[k] == OrZero(ByteAt(es[..n + 1], minAddr + k)) {
          PrefixByte(es, n, minAddr + k);
        }
      }
      assert es[..|es|] == es;
    }
  }

  /** One more entry adds exactly the bytes of its range. */
  lemma PrefixByte(es: seq<Segment>, n: nat, a: nat)
    requires Disjoint(es) && AllFit(es) && n < |es|
    ensures ByteAt(es[..n + 1], a) ==
            if es[n].rng.Has(a) then Some(es[n].val[a - es[n].rng.lo]) else ByteAt(es[..n], a)
  {
    assert es[..n + 1] == es[..n] + [es[n]];
    ByteAtCat(es[..n], [es[n]], a);
    if es[n].rng.Has(a) { NothingStaged(es[..n], a); }
  }
}
