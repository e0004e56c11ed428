/** ranged_map.h: a map from disjoint inclusive address ranges to values. */
module RangedMaps {

  datatype Option<+T> = None | Some(value: T)

  datatype Range = Range(lo: nat, hi: nat) {
    predicate Has(a: nat) {
      lo <= a <= hi
    }
  }

  datatype Entry<+V> = Entry(rng: Range, val: V)

  /** The value left when an older value meets a newer one whose range overlaps its own. */
  type MergeFun<!V> = (Range, V, Range, V) -> V

  /** Entries in address order, with pairwise disjoint, nonempty ranges. */
  predicate Disjoint<V>(es: seq<Entry<V>>) {
    && (forall k | 0 <= k < |es| :: es[k].rng.lo <= es[k].rng.hi)
    && (forall j, k | 0 <= j < k < |es| :: es[j].rng.hi < es[k].rng.lo)
  }

  /** std::map::upper_bound: the first entry that starts strictly above lo. */
  function UpperBound<V>(es: seq<Entry<V>>, lo: nat): (r: nat)
    ensures r <= |es| && (r < |es| ==> lo < es[r].rng.lo)
    ensures forall k | 0 <= k < r :: es[k].rng.lo <= lo
  {
    if es == [] || lo < es[0].rng.lo then 0 else 1 + UpperBound(es[1..], lo)
  }

  function Hull(a: Range, b: Range): Range {
    Range(if a.lo < b.lo then a.lo else b.lo, if a.hi < b.hi then b.hi else a.hi)
  }

  /** One past the last entry from k on that starts at or below hi. */
  function HitHi<V>(es: seq<Entry<V>>, hi: nat, k: nat): (r: nat)
    requires k <= |es|
    ensures k <= r <= |es| && (r < |es| ==> hi < es[r].rng.lo)
    ensures forall j | k <= j < r :: es[j].rng.lo <= hi
    decreases |es| - k
  {
    if k < |es| && es[k].rng.lo <= hi then HitHi(es, hi, k + 1) else k
  }

  /** The first of the entries before k that reach lo without a gap. */
  function HitLo<V>(es: seq<Entry<V>>, lo: nat, k: nat): (r: nat)
    requires k <= |es|
    ensures r <= k && (r > 0 ==> es[r - 1].rng.hi < lo)
    ensures forall j | r <= j < k :: lo <= es[j].rng.hi
  {
    if k > 0 && lo <= es[k - 1].rng.hi then HitLo(es, lo, k - 1) else k
  }

  /** A new entry merged with the entries it hits, in address order. */
  function Fold<V>(hits: seq<Entry<V>>, e: Entry<V>, merge: MergeFun<V>): Entry<V> {
    if hits == [] then e
    else Fold(hits[1..], Entry(Hull(e.rng, hits[0].rng), merge(hits[0].rng, hits[0].val, e.rng, e.val)), merge)
  }

  /** Where the entries that touch a range begin and end. */
  function From<V>(es: seq<Entry<V>>, rng: Range): (r: nat)
    ensures r <= UpperBound(es, rng.lo)
  {
    HitLo(es, rng.lo, UpperBound(es, rng.lo))
  }

  function To<V>(es: seq<Entry<V>>, rng: Range): (r: nat)
    ensures UpperBound(es, rng.lo) <= r <= |es|
  {
    HitHi(es, rng.hi, UpperBound(es, rng.lo))
  }

  /** The entries after Emplace. */
  function Emplaced<V>(es: seq<Entry<V>>, e: Entry<V>, merge: MergeFun<V>): seq<Entry<V>> {
    es[..From(es, e.rng)] + [Fold(es[From(es, e.rng)..To(es, e.rng)], e, merge)] + es[To(es, e.rng)..]
  }

  predicate Overlaps(a: Range, b: Range) {
    a.lo <= b.hi && b.lo <= a.hi
  }

  /** The entry that contains an address. */
  predicate Holds<V>(es: seq<Entry<V>>, k: nat, a: nat) {
    k < |es| && es[k].rng.Has(a)
  }

  lemma HolderUnique<V>(es: seq<Entry<V>>, j: nat, k: nat, a: nat)
    requires Disjoint(es) && Holds(es, j, a) && Holds(es, k, a)
    ensures j == k
  {
  }

  /** The entries from From up to To are those that overlap the range; the others lie on the two
      sides of it. */
  lemma HitsAreOverlaps<V>(es: seq<Entry<V>>, rng: Range, k: nat)
    requires Disjoint(es) && rng.lo <= rng.hi && k < |es|
    ensures From(es, rng) <= k < To(es, rng) <==> Overlaps(es[k].rng, rng)
    ensures k < From(es, rng) ==> es[k].rng.hi < rng.lo
    ensures To(es, rng) <= k ==> rng.hi < es[k].rng.lo
  {
    var a, b := From(es, rng), To(es, rng);
    if k < a { assert k < a - 1 ==> es[k].rng.hi < es[a - 1].rng.lo; }
    if b < k { assert es[b].rng.hi < es[k].rng.lo; }
  }

  predicate Free<V>(es: seq<Entry<V>>, rng: Range) {
    forall k | 0 <= k < |es| :: !Overlaps(es[k].rng, rng)
  }

  /** Of the entries that overlap, the lowest of those that start above the range's low address; the
      one that holds that address only when it is the only one. */
  predicate Preferred<V>(es: seq<Entry<V>>, rng: Range, k: nat) {
    && k < |es| && Overlaps(es[k].rng, rng)
    && forall j | 0 <= j < |es| && j != k && Overlaps(es[j].rng, rng) ::
         rng.lo < es[k].rng.lo && (es[j].rng.lo <= rng.lo || es[k].rng.lo < es[j].rng.lo)
  }

  lemma PreferredAbove<V>(es: seq<Entry<V>>, rng: Range, r: nat)
    requires Disjoint(es) && r == UpperBound(es, rng.lo) < |es| && es[r].rng.lo <= rng.hi
    ensures Preferred(es, rng, r)
  {
  }

  lemma PreferredBelow<V>(es: seq<Entry<V>>, rng: Range, r: nat)
    requires Disjoint(es) && rng.lo <= rng.hi && 0 < r == UpperBound(es, rng.lo) && rng.lo <= es[r - 1].rng.hi
    requires r < |es| ==> rng.hi < es[r].rng.lo
    ensures Preferred(es, rng, r - 1)
  {
    forall j | 0 <= j < |es| && j != r - 1 ensures !Overlaps(es[j].rng, rng) {
      if j < r - 1 { assert es[j].rng.hi < es[r - 1].rng.lo; }
      if r < j { assert es[r].rng.hi < es[j].rng.lo; }
    }
  }

  /** std::map::insert of a key that is not there yet. */
  function Inserted<V>(es: seq<Entry<V>>, e: Entry<V>): seq<Entry<V>> {
    var r := UpperBound(es, e.rng.lo);
    es[..r] + [e] + es[r..]
  }

  /** Entries below, a new entry, and entries above it form a disjoint map. */
  lemma JoinDisjoint<V>(a: seq<Entry<V>>, e: Entry<V>, b: seq<Entry<V>>)
    requires Disjoint(a) && Disjoint(b) && e.rng.lo <= e.rng.hi
    requires forall k | 0 <= k < |a| :: a[k].rng.hi < e.rng.lo
    requires forall k | 0 <= k < |b| :: e.rng.hi < b[k].rng.lo
    ensures Disjoint(a + [e] + b)
  {
    var t := a + [e] + b;
    assert forall k | 0 <= k < |t| ::
      t[k] == if k < |a| then a[k] else if k == |a| then e else b[k - |a| - 1];
  }

  lemma SliceDisjoint<V>(es: seq<Entry<V>>, i: nat, j: nat)
    requires Disjoint(es) && i <= j <= |es|
    ensures Disjoint(es[i..j])
  {
  }

  /** Inserting into a free range keeps the map disjoint. */
  lemma InsertKeepsDisjoint<V>(es: seq<Entry<V>>, e: Entry<V>)
    requires Disjoint(es) && e.rng.lo <= e.rng.hi && Free(es, e.rng)
    ensures Disjoint(Inserted(es, e))
  {
    var r := UpperBound(es, e.rng.lo);
    assert r > 0 ==> !Overlaps(es[r - 1].rng, e.rng);
    assert r < |es| ==> !Overlaps(es[r].rng, e.rng);
    NoOverlap(es, e.rng.lo, e.rng.hi, r);
    SliceDisjoint(es, 0, r);
    SliceDisjoint(es, r, |es|);
    JoinDisjoint(es[..r], e, es[r..]);
  }

  lemma InsertedMembers<V>(es: seq<Entry<V>>, e: Entry<V>, x: Entry<V>)
    ensures x in Inserted(es, e) <==> x in es || x == e
  {
    var r := UpperBound(es, e.rng.lo);
    assert es == es[..r] + es[r..];
  }

  /** A map from address ranges, changed in place. */
  class RangedMap<V> {
    var entries: seq<Entry<V>>

    ghost predicate Valid()
      reads this
    {
      Disjoint(entries)
    }

    constructor ()
      ensures Valid() && entries == []
    {
      entries := [];
    }

    /** Insert a value for the range, merging it with every entry it overlaps. */
    method Emplace(lo: nat, hi: nat, val: V, merge: MergeFun<V>)
      requires Valid() && lo <= hi
      modifies this
      ensures entries == Emplaced(old(entries), Entry(Range(lo, hi), val), merge)
    {
      var rightIt, hitLo, hitHi := Hits(lo, hi);
      if hitLo == hitHi {
        entries := entries[..rightIt] + [Entry(Range(lo, hi), val)] + entries[rightIt..];
        return;
      }
      var acc := MergeHits(hitLo, hitHi, Entry(Range(lo, hi), val), merge);
      entries := entries[..hitLo] + [acc] + entries[hitHi..];
    }

    /** The entries that touch the range: from hitLo up to, not including, hitHi. */
    method Hits(lo: nat, hi: nat) returns (rightIt: nat, hitLo: nat, hitHi: nat)
      ensures rightIt == UpperBound(entries, lo)
      ensures hitLo == HitLo(entries, lo, rightIt) && hitHi == HitHi(entries, hi, rightIt)
    {
      rightIt := UpperBound(entries, lo);
      hitHi := rightIt;
      while hitHi < |entries| && entries[hitHi].rng.lo <= hi
        invariant rightIt <= hitHi <= |entries|
        invariant HitHi(entries, hi, hitHi) == HitHi(entries, hi, rightIt)
      {
        hitHi := hitHi + 1;
      }
      hitLo := rightIt;
      while hitLo > 0 && lo <= entries[hitLo - 1].rng.hi
        invariant 0 <= hitLo <= rightIt
        invariant HitLo(entries, lo, hitLo) == HitLo(entries, lo, rightIt)
      {
        hitLo := hitLo - 1;
      }
    }

    /** Merge a new entry with the entries from hitLo up to hitHi. */
    method MergeHits(hitLo: nat, hitHi: nat, e: Entry<V>, merge: MergeFun<V>) returns (acc: Entry<V>)
      requires hitLo < hitHi <= |entries|
      ensures acc == Fold(entries[hitLo..hitHi], e, merge)
    {
      var first := entries[hitLo];
      acc := Entry(Hull(e.rng, first.rng), merge(first.rng, first.val, e.rng, e.val));
      assert entries[hitLo..hitHi][1..] == entries[hitLo + 1..hitHi];
      var it := hitLo + 1;
      while it != hitHi
        invariant hitLo < it <= hitHi
        invariant Fold(entries[it..hitHi], acc, merge) == Fold(entries[hitLo..hitHi], e, merge)
        decreases hitHi - it
      {
        assert entries[it..hitHi][1..] == entries[it + 1..hitHi];
        var x := entries[it];
        acc := Entry(Hull(acc.rng, x.rng), merge(x.rng, x.val, acc.rng, acc.val));
        it := it + 1;
      }
    }

    /** Insert a value unless its range overlaps an entry; the value of the preferred overlapping entry
        is returned, and then nothing changes. */
    method EmplaceDisjoint(lo: nat, hi: nat, val: V) returns (clash: Option<V>)
      requires Valid() && lo <= hi
      modifies this
      ensures clash.None? <==> Free(old(entries), Range(lo, hi))
      ensures clash.None? ==> entries == Inserted(old(entries), Entry(Range(lo, hi), val))
      ensures clash.Some? ==> entries == old(entries)
                              && exists k | 0 <= k < |entries| ::
                                   Preferred(entries, Range(lo, hi), k) && entries[k].val == clash.value
    {
      var rightIt := UpperBound(entries, lo);
      if rightIt < |entries| && entries[rightIt].rng.lo <= hi {
        PreferredAbove(entries, Range(lo, hi), rightIt);
        return Some(entries[rightIt].val);
      }
      if rightIt > 0 && lo <= entries[rightIt - 1].rng.hi {
        PreferredBelow(entries, Range(lo, hi), rightIt);
        return Some(entries[rightIt - 1].val);
      }
      NoOverlap(entries, lo, hi, rightIt);
      entries := Inserted(entries, Entry(Range(lo, hi), val));
      return None;
    }

    /** The index of the one entry that contains the address; none when there is no such entry. */
    method Find(addr: nat) returns (r: Option<nat>)
      requires Valid()
      ensures r.Some? ==> Holds(entries, r.value, addr) && forall k | Holds(entries, k, addr) :: k == r.value
      ensures r.None? ==> forall k | 0 <= k < |entries| :: !Holds(entries, k, addr)
    {
      var it := UpperBound(entries, addr);
      if it == 0 {
        return None;
      }
      it := it - 1;
      if addr <= entries[it].rng.hi {
        forall k | Holds(entries, k, addr) ensures k == it {
          HolderUnique(entries, k, it, addr);
        }
        return Some(it);
      }
      forall k | 0 <= k < |entries| ensures !Holds(entries, k, addr) {
        if k < it { assert entries[k].rng.hi < entries[it].rng.lo; }
      }
      return None;
    }
  }

  lemma NoOverlap<V>(es: seq<Entry<V>>, lo: nat, hi: nat, r: nat)
    requires Disjoint(es) && lo <= hi && r == UpperBound(es, lo)
    requires r < |es| ==> hi < es[r].rng.lo
    requires r > 0 ==> es[r - 1].rng.hi < lo
    ensures forall k | 0 <= k < r :: es[k].rng.hi < lo
    ensures forall k | r <= k < |es| :: hi < es[k].rng.lo
  {
    forall k | 0 <= k < r ensures es[k].rng.hi < lo {
      if k < r - 1 { assert es[k].rng.hi < es[r - 1].rng.lo; }
    }
    forall k | r <= k < |es| ensures hi < es[k].rng.lo {
      if r < k { assert es[r].rng.hi < es[k].rng.lo; }
    }
  }
}
