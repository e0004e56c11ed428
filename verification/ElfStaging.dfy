/** What dpi_memutil.cc computes: the registry of memory areas, the staging of an ELF image and the
    memory words it turns into, as functions with their properties. */
module ElfStaging {
  import opened RangedMaps
  import opened StagedMemory
  import opened MemAreas

  /** A program header: whether it is PT_LOAD, p_offset, p_paddr and p_filesz. */
  datatype Phdr = Phdr(load: bool, offset: nat, paddr: nat, filesz: nat)

  datatype Error =
    | AddressOverflow | DuplicateName | AreaOverlap
    | NoRegion | SegmentOverflow | SegmentTooLong | Misaligned | BeyondFile
    | WriteFailed(outcome: Outcome)

  datatype Result<+T> = Ok(value: T) | Err(error: Error)

  /** The unsigned 32-bit sum of two numbers below 2^32. */
  function Add32(a: nat, b: nat): nat {
    if a + b < U32 then a + b else a + b - U32
  }

  /** The largest offset in a memory of this size; a size of zero wraps. */
  function TopOf(size: nat): nat {
    if size > 0 then size - 1 else U32 - 1
  }

  predicate ValidPhdr(p: Phdr) {
    p.offset < U32 && p.paddr < U32 && p.filesz < U32
  }

  /** A header that contributes bytes. */
  predicate Loads(p: Phdr) {
    p.load && p.filesz > 0
  }

  /** The registered areas as values: handle, base address and name, by index. */
  datatype Area = Area(mem: MemArea, base: nat, name: string) {
    function Rng(): Range {
      Range(base, Add32(base, TopOf(mem.SizeBytes())))
    }
  }

  predicate ValidArea(a: Area) {
    a.mem.Valid() && a.base < U32 && a.Rng().lo <= a.Rng().hi
  }

  /** "The maps give indices pointing into the vectors": the name map inverts the vector of names
      and the range map holds each area's range, disjoint from all others. */
  predicate NamesValid(areas: seq<Area>, nameToMem: map<string, nat>) {
    && (forall k | 0 <= k < |areas| :: areas[k].name in nameToMem && nameToMem[areas[k].name] == k)
    && (forall n | n in nameToMem :: nameToMem[n] < |areas| && areas[nameToMem[n]].name == n)
  }

  predicate RangesValid(areas: seq<Area>, addrToMem: seq<Entry<nat>>) {
    && Disjoint(addrToMem)
    && (forall e | e in addrToMem :: e.val < |areas| && e.rng == areas[e.val].Rng())
    && (forall k | 0 <= k < |areas| :: Entry(areas[k].Rng(), k) in addrToMem)
  }

  predicate RegistryValid(areas: seq<Area>, nameToMem: map<string, nat>, addrToMem: seq<Entry<nat>>) {
    && (forall k | 0 <= k < |areas| :: ValidArea(areas[k]))
    && NamesValid(areas, nameToMem) && RangesValid(areas, addrToMem)
  }

  /** Two different areas share no address. */
  lemma AreasDisjoint(areas: seq<Area>, addrToMem: seq<Entry<nat>>, j: nat, k: nat)
    requires RangesValid(areas, addrToMem) && j < |areas| && k < |areas| && j != k
    ensures !Overlaps(areas[j].Rng(), areas[k].Rng())
  {
    var ej, ek := Entry(areas[j].Rng(), j), Entry(areas[k].Rng(), k);
    assert ej in addrToMem && ek in addrToMem;
    var x :| 0 <= x < |addrToMem| && addrToMem[x] == ej;
    var y :| 0 <= y < |addrToMem| && addrToMem[y] == ek;
    assert x < y ==> addrToMem[x].rng.hi < addrToMem[y].rng.lo;
    assert y < x ==> addrToMem[y].rng.hi < addrToMem[x].rng.lo;
  }

  /** The range map is free at a range exactly when no registered area overlaps it. */
  lemma FreeMeansNoArea(areas: seq<Area>, addrToMem: seq<Entry<nat>>, r: Range)
    requires RangesValid(areas, addrToMem)
    ensures Free(addrToMem, r) <==> forall k | 0 <= k < |areas| :: !Overlaps(areas[k].Rng(), r)
  {
    if Free(addrToMem, r) {
      forall k | 0 <= k < |areas| ensures !Overlaps(areas[k].Rng(), r) {
        var e := Entry(areas[k].Rng(), k);
        assert e in addrToMem;
        var x :| 0 <= x < |addrToMem| && addrToMem[x] == e;
        assert !Overlaps(addrToMem[x].rng, r);
      }
    } else {
      var x :| 0 <= x < |addrToMem| && Overlaps(addrToMem[x].rng, r);
      assert addrToMem[x] in addrToMem;
      assert Overlaps(areas[addrToMem[x].val].Rng(), r);
    }
  }

  lemma RangesGrow(areas: seq<Area>, addrToMem: seq<Entry<nat>>, a: Area)
    requires RangesValid(areas, addrToMem) && ValidArea(a) && Free(addrToMem, a.Rng())
    ensures RangesValid(areas + [a], Inserted(addrToMem, Entry(a.Rng(), |areas|)))
  {
    var e := Entry(a.Rng(), |areas|);
    var t := Inserted(addrToMem, e);
    InsertKeepsDisjoint(addrToMem, e);
    forall x | x in t ensures x.val < |areas| + 1 && x.rng == (areas + [a])[x.val].Rng() {
      InsertedMembers(addrToMem, e, x);
    }
    forall k | 0 <= k < |areas| + 1 ensures Entry((areas + [a])[k].Rng(), k) in t {
      InsertedMembers(addrToMem, e, Entry((areas + [a])[k].Rng(), k));
    }
  }

  lemma NamesGrow(areas: seq<Area>, nameToMem: map<string, nat>, a: Area)
    requires NamesValid(areas, nameToMem) && a.name !in nameToMem
    ensures NamesValid(areas + [a], nameToMem[a.name := |areas|])
  {
  }

  /** Why a registration is refused, if it is. */
  function Refusal(areas: seq<Area>, nameToMem: map<string, nat>, a: Area): Option<Error> {
    if !ValidArea(a) then Some(AddressOverflow)
    else if a.name in nameToMem then Some(DuplicateName)
    else if exists k | 0 <= k < |areas| :: Overlaps(areas[k].Rng(), a.Rng()) then Some(AreaOverlap)
    else None
  }

  /** Area k is the one that a clash with a new area is reported with. */
  predicate ClashesWith(areas: seq<Area>, a: Area, k: nat) {
    && k < |areas| && Overlaps(areas[k].Rng(), a.Rng())
    && forall j | 0 <= j < |areas| && j != k && Overlaps(areas[j].Rng(), a.Rng()) ::
         a.base < areas[k].base && (areas[j].base <= a.base || areas[k].base < areas[j].base)
  }

  /** When the assertion on a clash fails: it tests the index of the area that is reported, so it fails
      for area 0. */
  predicate AssertionFails(areas: seq<Area>, nameToMem: map<string, nat>, a: Area) {
    ValidArea(a) && a.name !in nameToMem && ClashesWith(areas, a, 0)
  }

  lemma EntryOfArea(areas: seq<Area>, addrToMem: seq<Entry<nat>>, k: nat) returns (x: nat)
    requires RangesValid(areas, addrToMem) && k < |areas|
    ensures x < |addrToMem| && addrToMem[x] == Entry(areas[k].Rng(), k)
    ensures forall y | 0 <= y < |addrToMem| && addrToMem[y].val == k :: y == x
  {
    assert Entry(areas[k].Rng(), k) in addrToMem;
    x :| 0 <= x < |addrToMem| && addrToMem[x] == Entry(areas[k].Rng(), k);
    forall y | 0 <= y < |addrToMem| && addrToMem[y].val == k ensures y == x {
      assert addrToMem[y] in addrToMem;
      assert Holds(addrToMem, x, areas[k].base) && Holds(addrToMem, y, areas[k].base);
      HolderUnique(addrToMem, x, y, areas[k].base);
    }
  }

  /** The preferred entry of the range map is that of the area that a clash is reported with. */
  lemma ReportedArea(areas: seq<Area>, addrToMem: seq<Entry<nat>>, a: Area, x: nat)
    requires RangesValid(areas, addrToMem) && x < |addrToMem|
    ensures Preferred(addrToMem, a.Rng(), x) <==> ClashesWith(areas, a, addrToMem[x].val)
  {
    var k := addrToMem[x].val;
    assert addrToMem[x] in addrToMem;
    if Preferred(addrToMem, a.Rng(), x) {
      forall j | 0 <= j < |areas| && j != k && Overlaps(areas[j].Rng(), a.Rng())
        ensures a.base < areas[k].base && (areas[j].base <= a.base || areas[k].base < areas[j].base)
      {
        var y := EntryOfArea(areas, addrToMem, j);
        assert Overlaps(addrToMem[y].rng, a.Rng());
      }
    }
    if ClashesWith(areas, a, k) {
      forall y | 0 <= y < |addrToMem| && y != x && Overlaps(addrToMem[y].rng, a.Rng())
        ensures a.base < addrToMem[x].rng.lo
        ensures addrToMem[y].rng.lo <= a.base || addrToMem[x].rng.lo < addrToMem[y].rng.lo
      {
        assert addrToMem[y] in addrToMem;
        if addrToMem[y].val == k { var z := EntryOfArea(areas, addrToMem, k); assert false; }
      }
    }
  }

  /** A registration at the base of the only area fails the assertion; without it the overlap is
      reported. */
  lemma SameBaseFails(first: Area, a: Area)
    requires ValidArea(first) && ValidArea(a) && a.base == first.base && a.name != first.name
    ensures Refusal([first], map[first.name := 0], a) == Some(AreaOverlap)
    ensures AssertionFails([first], map[first.name := 0], a)
  {
    assert Overlaps([first][0].Rng(), a.Rng());
  }

  /** The outcome of a registration in terms of the range map, and the registry it leads to. */
  lemma RegistryStep(areas: seq<Area>, nameToMem: map<string, nat>, addrToMem: seq<Entry<nat>>, a: Area)
    requires RegistryValid(areas, nameToMem, addrToMem)
    ensures Refusal(areas, nameToMem, a) ==
            if !ValidArea(a) then Some(AddressOverflow)
            else if a.name in nameToMem then Some(DuplicateName)
            else if !Free(addrToMem, a.Rng()) then Some(AreaOverlap) else None
    ensures Refusal(areas, nameToMem, a).None? ==>
              RegistryValid(areas + [a], nameToMem[a.name := |areas|], Inserted(addrToMem, Entry(a.Rng(), |areas|)))
  {
    FreeMeansNoArea(areas, addrToMem, a.Rng());
    if Refusal(areas, nameToMem, a).None? {
      RangesGrow(areas, addrToMem, a);
      NamesGrow(areas, nameToMem, a);
    }
  }

  /** Whether and where a segment is accepted: the area that holds its first byte holds all of
      it, and its start is word-aligned there. */
  predicate Accepts(a: Area, p: Phdr, fileSize: nat) {
    && a.Rng().Has(p.paddr)
    && p.paddr + p.filesz <= U32
    && p.paddr + p.filesz - 1 - a.base < a.mem.SizeBytes()
    && (a.mem.widthByte > 0 ==> (p.paddr - a.base) % a.mem.widthByte == 0)
    && p.offset + p.filesz <= fileSize
  }

  /** An image is accepted when every header that contributes bytes is. */
  predicate Accepted(areas: seq<Area>, phdrs: seq<Phdr>, fileSize: nat) {
    forall i | 0 <= i < |phdrs| && Loads(phdrs[i]) ::
      exists k | 0 <= k < |areas| :: Accepts(areas[k], phdrs[i], fileSize)
  }

  /** The byte of an image at an address: that of the last program header that covers it. */
  function ElfByte(phdrs: seq<Phdr>, file: seq<Byte>, a: nat): Option<Byte> {
    if phdrs == [] then None
    else
      var p := phdrs[|phdrs| - 1];
      if Loads(p) && p.paddr <= a < p.paddr + p.filesz && p.offset + (a - p.paddr) < |file|
      then Some(file[p.offset + (a - p.paddr)])
      else ElfByte(phdrs[..|phdrs| - 1], file, a)
  }

  // ---------------------------------------------------------------- staging, as a map of segments

  /** staging_area_: a StagedMem by value for each memory name. */
  type Staging = map<string, Staged>

  function Get(v: Staging, name: string): Staged {
    if name in v then v[name] else EMPTY
  }

  /** The first area that contains an address; |areas| when there is none. */
  function RegionOf(areas: seq<Area>, a: nat): (k: nat)
    ensures k <= |areas| && (k < |areas| ==> areas[k].Rng().Has(a))
    ensures forall j | 0 <= j < k :: !areas[j].Rng().Has(a)
  {
    if areas == [] || areas[0].Rng().Has(a) then 0 else 1 + RegionOf(areas[1..], a)
  }

  /** The part of the file a header refers to, as a segment of area k. */
  function SegmentOf(a: Area, p: Phdr, file: seq<Byte>): (e: Segment)
    requires Loads(p) && Accepts(a, p, |file|)
    ensures Fits(e)
  {
    SegmentAt(p.paddr - a.base, file[p.offset..p.offset + p.filesz])
  }

  /** Staging one header. */
  function StageOne(areas: seq<Area>, v: Staging, p: Phdr, file: seq<Byte>): Staging {
    var k := RegionOf(areas, p.paddr);
    if Loads(p) && k < |areas| && Accepts(areas[k], p, |file|)
    then StageIn(areas[k], v, p, file)
    else v
  }

  function StageIn(a: Area, v: Staging, p: Phdr, file: seq<Byte>): Staging
    requires a.base <= p.paddr && p.offset + p.filesz <= |file|
  {
    v[a.name := Added(Get(v, a.name), p.paddr - a.base, file[p.offset..p.offset + p.filesz])]
  }

  /** The staging area after all headers, in order. */
  function StageAll(areas: seq<Area>, phdrs: seq<Phdr>, file: seq<Byte>): Staging {
    if phdrs == [] then map[]
    else StageOne(areas, StageAll(areas, phdrs[..|phdrs| - 1], file), phdrs[|phdrs| - 1], file)
  }

  /** An address lies in at most one area. */
  lemma AreaUnique(areas: seq<Area>, addrToMem: seq<Entry<nat>>, j: nat, k: nat, x: nat)
    requires RangesValid(areas, addrToMem) && j < |areas| && k < |areas|
    requires areas[j].Rng().Has(x) && areas[k].Rng().Has(x)
    ensures j == k
  {
    if j != k {
      AreasDisjoint(areas, addrToMem, j, k);
      assert false;
    }
  }

  /** The area that accepts a header is the one its first address lies in. */
  lemma AcceptingRegion(areas: seq<Area>, addrToMem: seq<Entry<nat>>, p: Phdr, fileSize: nat, k: nat)
    requires RangesValid(areas, addrToMem) && k < |areas| && Accepts(areas[k], p, fileSize)
    ensures RegionOf(areas, p.paddr) == k
  {
    AreaUnique(areas, addrToMem, RegionOf(areas, p.paddr), k, p.paddr);
  }

  /** The checks on a segment that starts in area k. */
  function RegionIn(areas: seq<Area>, k: nat, p: Phdr): Result<nat>
    requires k < |areas|
  {
    if p.paddr + p.filesz > U32 then Err(SegmentOverflow)
    else if areas[k].mem.SizeBytes() <= p.paddr + p.filesz - 1 - areas[k].base then Err(SegmentTooLong)
    else Ok(k)
  }

  /** GetRegionForSegment: the area of the segment's first byte, if all of it fits there. */
  function Region(areas: seq<Area>, p: Phdr): Result<nat> {
    var k := RegionOf(areas, p.paddr);
    if k == |areas| then Err(NoRegion) else RegionIn(areas, k, p)
  }

  /** A segment is given an area exactly when that area contains it from its first byte to its last.
      An area whose byte size wraps to zero is given none. */
  lemma RegionContainsSegment(areas: seq<Area>, addrToMem: seq<Entry<nat>>, p: Phdr, k: nat)
    requires RangesValid(areas, addrToMem) && k < |areas| && ValidArea(areas[k]) && p.filesz > 0
    ensures Region(areas, p) == Ok(k) <==>
            && areas[k].mem.SizeBytes() > 0
            && areas[k].Rng().Has(p.paddr) && areas[k].Rng().Has(p.paddr + p.filesz - 1)
  {
    if areas[k].Rng().Has(p.paddr) {
      AreaUnique(areas, addrToMem, RegionOf(areas, p.paddr), k, p.paddr);
    }
  }

  /** Why StageElf stops at a header, if it does. */
  function PhdrError(areas: seq<Area>, p: Phdr, fileSize: nat): Option<Error> {
    if !Loads(p) then None
    else
      var r := Region(areas, p);
      if r.Err? then Some(r.error)
      else
        ErrorIn(areas[r.value], p, fileSize)
  }

  /** A segment that passes the checks of its area is accepted there and staged there. */
  lemma PassedChecks(areas: seq<Area>, p: Phdr, file: seq<Byte>, v: Staging)
    requires Loads(p) && Region(areas, p).Ok? && ErrorIn(areas[Region(areas, p).value], p, |file|).None?
    ensures Accepts(areas[Region(areas, p).value], p, |file|)
    ensures StageOne(areas, v, p, file) == StageIn(areas[Region(areas, p).value], v, p, file)
  {
  }

  /** The checks on a segment once its area is known. */
  function ErrorIn(a: Area, p: Phdr, fileSize: nat): Option<Error> {
    if a.mem.widthByte > 0 && (p.paddr - a.base) % a.mem.widthByte != 0 then Some(Misaligned)
    else if fileSize < p.offset + p.filesz then Some(BeyondFile)
    else None
  }

  /** StageElf stops at the first header with an error. */
  function ImageError(areas: seq<Area>, phdrs: seq<Phdr>, fileSize: nat): Option<Error> {
    if phdrs == [] then None
    else
      var before := ImageError(areas, phdrs[..|phdrs| - 1], fileSize);
      if before.Some? then before else PhdrError(areas, phdrs[|phdrs| - 1], fileSize)
  }

  lemma PhdrAccepted(areas: seq<Area>, addrToMem: seq<Entry<nat>>, p: Phdr, fileSize: nat)
    requires RangesValid(areas, addrToMem)
    ensures PhdrError(areas, p, fileSize).None? <==>
              (Loads(p) ==> exists k | 0 <= k < |areas| :: Accepts(areas[k], p, fileSize))
  {
    if Loads(p) && PhdrError(areas, p, fileSize).None? {
      assert Accepts(areas[RegionOf(areas, p.paddr)], p, fileSize);
    }
    if k: nat :| k < |areas| && Accepts(areas[k], p, fileSize) {
      AcceptingRegion(areas, addrToMem, p, fileSize, k);
    }
  }

  /** An image loads without error exactly when each contributing segment lies wholly in one area,
      word-aligned, with its bytes in the file. */
  lemma {:induction false} ImageAccepted(areas: seq<Area>, addrToMem: seq<Entry<nat>>, phdrs: seq<Phdr>, fileSize: nat)
    requires RangesValid(areas, addrToMem)
    ensures ImageError(areas, phdrs, fileSize).None? <==> Accepted(areas, phdrs, fileSize)
  {
    if phdrs != [] {
      var before, p := phdrs[..|phdrs| - 1], phdrs[|phdrs| - 1];
      ImageAccepted(areas, addrToMem, before, fileSize);
      PhdrAccepted(areas, addrToMem, p, fileSize);
      assert forall i | 0 <= i < |before| :: before[i] == phdrs[i];
    }
  }

  /** Addresses of area a, as offsets. */
  predicate InArea(a: Area, o: nat) {
    a.base + o <= a.Rng().hi
  }

  /** The image's byte at an offset of an area; none past the area's range. */
  function AreaByte(a: Area, phdrs: seq<Phdr>, file: seq<Byte>, o: nat): Option<Byte> {
    if InArea(a, o) then ElfByte(phdrs, file, a.base + o) else None
  }

  /** The segments of one memory: disjoint, word-aligned, and inside the memory. */
  predicate ShapeRight(a: Area, es: seq<Segment>) {
    && Disjoint(es) && AllFit(es)
    && (a.mem.widthByte > 0 ==> Aligned(es, a.mem.widthByte))
    && (forall k | 0 <= k < |es| :: es[k].rng.hi < a.mem.SizeBytes())
  }

  /** Their bytes are those of the image in the memory's address range. */
  ghost predicate BytesRight(a: Area, es: seq<Segment>, phdrs: seq<Phdr>, file: seq<Byte>)
    requires AllFit(es)
  {
    forall o: nat :: ByteAt(es, o) == AreaByte(a, phdrs, file, o)
  }

  ghost predicate StagedRight(a: Area, es: seq<Segment>, phdrs: seq<Phdr>, file: seq<Byte>) {
    ShapeRight(a, es) && BytesRight(a, es, phdrs, file)
  }

  lemma ElfByteStep(before: seq<Phdr>, p: Phdr, file: seq<Byte>, x: nat)
    ensures ElfByte(before + [p], file, x) ==
            if Loads(p) && p.paddr <= x < p.paddr + p.filesz && p.offset + (x - p.paddr) < |file|
            then Some(file[p.offset + (x - p.paddr)]) else ElfByte(before, file, x)
  {
    assert (before + [p])[..|before|] == before;
  }

  lemma ShapeHere(a: Area, es: seq<Segment>, p: Phdr, file: seq<Byte>)
    requires ValidArea(a) && Loads(p) && Accepts(a, p, |file|) && ShapeRight(a, es)
    ensures ShapeRight(a, Emplaced(es, SegmentOf(a, p, file), Merge))
  {
    var e := SegmentOf(a, p, file);
    var t := Emplaced(es, e, Merge);
    EmplaceKeepsShape(es, e);
    EmplaceKeepsAlignment(es, e, a.mem.widthByte);
    forall k | 0 <= k < |t| ensures t[k].rng.hi < a.mem.SizeBytes() {
      TopByteOld(es, e, k);
    }
  }

  /** The last byte of an entry comes from the new segment or from an old entry. */
  lemma TopByteOld(es: seq<Segment>, e: Segment, k: nat)
    requires Disjoint(es) && AllFit(es) && Fits(e) && k < |Emplaced(es, e, Merge)|
    ensures var hi := Emplaced(es, e, Merge)[k].rng.hi;
            e.rng.Has(hi) || exists j | 0 <= j < |es| :: Holds(es, j, hi)
  {
    var t := Emplaced(es, e, Merge);
    var hi := t[k].rng.hi;
    EmplaceKeepsShape(es, e);
    ByteAtHolds(t, k, hi);
    EmplaceOverwrites(es, e, hi);
    if !e.rng.Has(hi) {
      var j := ByteAtSome(es, hi);
    }
  }

  /** The bytes of the new segment are those of the header. */
  lemma SegmentBytes(a: Area, p: Phdr, file: seq<Byte>, o: nat)
    requires Loads(p) && Accepts(a, p, |file|)
    ensures var e := SegmentOf(a, p, file);
            && (e.rng.Has(o) <==> p.paddr <= a.base + o < p.paddr + p.filesz)
            && (e.rng.Has(o) ==> e.val[o - e.rng.lo] == file[p.offset + (a.base + o - p.paddr)])
            && (e.rng.Has(o) ==> a.base + o - a.base < a.mem.SizeBytes())
  {
  }

  /** A header staged in its own area overwrites the bytes of its range. */
  lemma BytesHere(a: Area, es: seq<Segment>, before: seq<Phdr>, p: Phdr, file: seq<Byte>, o: nat, e: Segment)
    requires ValidArea(a) && Loads(p) && Accepts(a, p, |file|) && e == SegmentOf(a, p, file) && Fits(e)
    requires Disjoint(es) && AllFit(es) && ByteAt(es, o) == AreaByte(a, before, file, o)
    ensures AllFit(Emplaced(es, e, Merge))
    ensures ByteAt(Emplaced(es, e, Merge), o) == AreaByte(a, before + [p], file, o)
  {
    EmplaceOverwrites(es, e, o);
    SegmentIsNewest(a, before, p, file, o);
  }

  /** The image's byte at an offset is that of the newest header where it has one. */
  lemma SegmentIsNewest(a: Area, before: seq<Phdr>, p: Phdr, file: seq<Byte>, o: nat)
    requires ValidArea(a) && Loads(p) && Accepts(a, p, |file|)
    ensures var e := SegmentOf(a, p, file);
            AreaByte(a, before + [p], file, o) ==
            if e.rng.Has(o) then Some(e.val[o - e.rng.lo]) else AreaByte(a, before, file, o)
  {
    SegmentBytes(a, p, file, o);
    ElfByteStep(before, p, file, a.base + o);
    if SegmentOf(a, p, file).rng.Has(o) { InsideIsInArea(a, o); }
  }

  /** Offsets below the size of an area are its addresses. */
  lemma InsideIsInArea(a: Area, o: nat)
    requires ValidArea(a) && o < a.mem.SizeBytes()
    ensures InArea(a, o)
  {
  }

  lemma StagedHere(a: Area, es: seq<Segment>, before: seq<Phdr>, p: Phdr, file: seq<Byte>)
    requires ValidArea(a) && Loads(p) && Accepts(a, p, |file|) && StagedRight(a, es, before, file)
    ensures StagedRight(a, Emplaced(es, SegmentOf(a, p, file), Merge), before + [p], file)
  {
    ShapeHere(a, es, p, file);
    EveryByteHere(a, es, before, p, file, Emplaced(es, SegmentOf(a, p, file), Merge));
  }

  lemma EveryByteHere(a: Area, es: seq<Segment>, before: seq<Phdr>, p: Phdr, file: seq<Byte>, t: seq<Segment>)
    requires ValidArea(a) && Loads(p) && Accepts(a, p, |file|) && Disjoint(es) && AllFit(es)
    requires BytesRight(a, es, before, file) && t == Emplaced(es, SegmentOf(a, p, file), Merge) && AllFit(t)
    ensures BytesRight(a, t, before + [p], file)
  {
    forall o: nat ensures ByteAt(t, o) == AreaByte(a, before + [p], file, o) {
      assert ByteAt(es, o) == AreaByte(a, before, file, o);
      BytesHere(a, es, before, p, file, o, SegmentOf(a, p, file));
    }
  }

  /** The last address of an accepted segment lies in its area. */
  lemma AcceptedTop(a: Area, p: Phdr, fileSize: nat)
    requires ValidArea(a) && Loads(p) && Accepts(a, p, fileSize)
    ensures a.Rng().lo <= p.paddr && p.paddr + p.filesz - 1 <= a.Rng().hi
  {
  }

  /** A header staged in another area, or none, touches no byte of this one. */
  lemma StagedElsewhere(a: Area, b: Area, es: seq<Segment>, before: seq<Phdr>, p: Phdr, file: seq<Byte>)
    requires StagedRight(a, es, before, file)
    requires Loads(p) ==> Accepts(b, p, |file|) && ValidArea(b) && !Overlaps(a.Rng(), b.Rng())
    ensures StagedRight(a, es, before + [p], file)
  {
    if Loads(p) { AcceptedTop(b, p, |file|); }
    forall o: nat
      ensures ByteAt(es, o) == if InArea(a, o) then ElfByte(before + [p], file, a.base + o) else None
    {
      ElfByteStep(before, p, file, a.base + o);
      if Loads(p) && InArea(a, o) { OutsideSegment(a.Rng(), b.Rng(), p, a.base + o); }
    }
  }

  lemma OutsideSegment(r: Range, s: Range, p: Phdr, x: nat)
    requires !Overlaps(r, s) && r.lo <= x <= r.hi
    requires s.lo <= p.paddr && p.filesz > 0 && p.paddr + p.filesz - 1 <= s.hi
    ensures !(p.paddr <= x < p.paddr + p.filesz)
  {
  }

  /** After any accepted headers, every area's staging holds exactly the image's bytes there. */
  lemma {:induction false} StagingIsImage(areas: seq<Area>, nameToMem: map<string, nat>,
                                          addrToMem: seq<Entry<nat>>,
                                          phdrs: seq<Phdr>, file: seq<Byte>, k: nat)
    requires RegistryValid(areas, nameToMem, addrToMem) && k < |areas|
    requires Accepted(areas, phdrs, |file|)
    ensures StagedRight(areas[k], Get(StageAll(areas, phdrs, file), areas[k].name).segs, phdrs, file)
    decreases |phdrs|
  {
    if phdrs != [] {
      var before, p := phdrs[..|phdrs| - 1], phdrs[|phdrs| - 1];
      assert phdrs == before + [p];
      assert Accepted(areas, before, |file|) by {
        assert forall i | 0 <= i < |before| :: before[i] == phdrs[i];
      }
      StagingIsImage(areas, nameToMem, addrToMem, before, file, k);
      StageOneRight(areas, nameToMem, addrToMem, StageAll(areas, before, file), before, p, file, k);
    }
  }

  lemma AddedIsSegment(a: Area, st: Staged, p: Phdr, file: seq<Byte>)
    requires Loads(p) && Accepts(a, p, |file|)
    ensures Added(st, p.paddr - a.base, file[p.offset..p.offset + p.filesz]).segs ==
            Emplaced(st.segs, SegmentOf(a, p, file), Merge)
  {
    var seg := file[p.offset..p.offset + p.filesz];
    assert |seg| == p.filesz && SegmentAt(p.paddr - a.base, seg) == SegmentOf(a, p, file);
  }

  lemma NamesDistinct(areas: seq<Area>, nameToMem: map<string, nat>, j: nat, k: nat)
    requires NamesValid(areas, nameToMem) && j < |areas| && k < |areas|
    ensures areas[j].name == areas[k].name <==> j == k
  {
    assert nameToMem[areas[j].name] == j && nameToMem[areas[k].name] == k;
  }

  lemma GetUpdated(v: Staging, n: string, m: string, st: Staged)
    ensures Get(v[n := st], m) == if n == m then st else Get(v, m)
  {
  }

  /** The memory in which a header is staged gets its segment; no other changes. */
  lemma StageOneAt(areas: seq<Area>, v: Staging, p: Phdr, file: seq<Byte>, j: nat, name: string)
    requires j < |areas| && Loads(p) && Accepts(areas[j], p, |file|) && RegionOf(areas, p.paddr) == j
    ensures Get(StageOne(areas, v, p, file), name).segs ==
            if areas[j].name == name then Emplaced(Get(v, name).segs, SegmentOf(areas[j], p, file), Merge)
            else Get(v, name).segs
  {
    StageInGet(areas[j], v, p, file, name);
  }

  lemma StageInGet(a: Area, v: Staging, p: Phdr, file: seq<Byte>, name: string)
    requires Loads(p) && Accepts(a, p, |file|)
    ensures Get(StageIn(a, v, p, file), name).segs ==
            if a.name == name then Emplaced(Get(v, name).segs, SegmentOf(a, p, file), Merge)
            else Get(v, name).segs
  {
    GetUpdated(v, a.name, name, Added(Get(v, a.name), p.paddr - a.base, file[p.offset..p.offset + p.filesz]));
    AddedIsSegment(a, Get(v, a.name), p, file);
  }

  lemma StageOneRight(areas: seq<Area>, nameToMem: map<string, nat>, addrToMem: seq<Entry<nat>>,
                      v: Staging, before: seq<Phdr>, p: Phdr, file: seq<Byte>, k: nat)
    requires RegistryValid(areas, nameToMem, addrToMem) && k < |areas|
    requires Loads(p) ==> exists j | 0 <= j < |areas| :: Accepts(areas[j], p, |file|)
    requires StagedRight(areas[k], Get(v, areas[k].name).segs, before, file)
    ensures StagedRight(areas[k], Get(StageOne(areas, v, p, file), areas[k].name).segs, before + [p], file)
  {
    var es := Get(v, areas[k].name).segs;
    if !Loads(p) {
      StagedElsewhere(areas[k], areas[k], es, before, p, file);
    } else {
      var j: nat :| j < |areas| && Accepts(areas[j], p, |file|);
      AcceptingRegion(areas, addrToMem, p, |file|, j);
      NamesDistinct(areas, nameToMem, j, k);
      StageOneAt(areas, v, p, file, j, areas[k].name);
      if j == k {
        StagedHere(areas[k], es, before, p, file);
      } else {
        AreasDisjoint(areas, addrToMem, k, j);
        StagedElsewhere(areas[k], areas[j], es, before, p, file);
      }
    }
  }

  // ---------------------------------------------------------------- writing staged segments

  /** A memory after the first n staged segments have been written to it. */
  function WriteAll(mem: seq<Word>, es: seq<Segment>, width: nat, n: nat): (r: seq<Word>)
    requires width > 0 && n <= |es|
    ensures |r| == |mem|
  {
    if n == 0 then mem
    else Written(WriteAll(mem, es, width, n - 1), es[n - 1].rng.lo / width, es[n - 1].val, width)
  }

  /** The staged byte for byte j of word x. */
  function WordByte(es: seq<Segment>, width: nat, x: nat, j: nat): Option<Byte>
    requires AllFit(es)
  {
    ByteAt(es, x * width + j)
  }

  /** Some byte of word x is staged. */
  predicate TouchesWord(es: seq<Segment>, width: nat, x: nat)
    requires AllFit(es)
  {
    exists j | 0 <= j < width :: WordByte(es, width, x, j).Some?
  }

  lemma AlignedGap(lo: nat, width: nat, x: nat)
    requires width > 0 && lo % width == 0 && x * width < lo
    ensures x * width + width <= lo
  {
    var q := lo / width;
    assert lo == q * width;
    assert q <= x ==> q * width <= x * width;
    assert (x + 1) * width <= q * width;
  }

  /** An aligned segment writes word x exactly when it covers the word's first byte. */
  lemma WritesWord(e: Segment, width: nat, x: nat)
    requires width > 0 && Fits(e) && e.rng.lo % width == 0
    ensures e.rng.lo / width <= x < e.rng.lo / width + NumWords(|e.val|, width) <==> e.rng.Has(x * width)
    ensures e.rng.Has(x * width) ==> x * width - e.rng.lo == (x - e.rng.lo / width) * width
  {
    var q := e.rng.lo / width;
    assert e.rng.lo == q * width;
    assert x * width - q * width == (x - q) * width;
    if q <= x {
      assert 0 <= (x - q) * width;
      if x < q + NumWords(|e.val|, width) { WordFits(|e.val|, width, x - q); }
      if (x - q) * width < |e.val| { WordsCover(|e.val|, width, x - q); }
    } else {
      assert x * width < q * width;
    }
  }

  /** If a segment covers the first byte of word x, every staged byte of the word is its own;
      if it does not, none is. */
  lemma WordOfOneSegment(es: seq<Segment>, width: nat, k: nat, x: nat, j: nat)
    requires width > 0 && Disjoint(es) && AllFit(es) && Aligned(es, width) && k < |es| && j < width
    ensures es[k].rng.Has(x * width) ==>
              ByteAt(es, x * width + j) ==
              if es[k].rng.Has(x * width + j) then Some(es[k].val[x * width + j - es[k].rng.lo]) else None
    ensures Holds(es, k, x * width + j) ==> es[k].rng.Has(x * width)
  {
    forall i | 0 <= i < |es| && es[i].rng.lo > x * width ensures es[i].rng.lo >= x * width + width {
      AlignedGap(es[i].rng.lo, width, x);
    }
    BlockOfOneSegment(es, width, k, x * width, x * width + j);
  }

  lemma BlockOfOneSegment(es: seq<Segment>, width: nat, k: nat, start: nat, a: nat)
    requires Disjoint(es) && AllFit(es) && k < |es| && start <= a < start + width
    requires forall i | 0 <= i < |es| && es[i].rng.lo > start :: es[i].rng.lo >= start + width
    ensures es[k].rng.Has(start) ==>
              ByteAt(es, a) == if es[k].rng.Has(a) then Some(es[k].val[a - es[k].rng.lo]) else None
    ensures Holds(es, k, a) ==> es[k].rng.Has(start)
  {
    if es[k].rng.Has(start) {
      if es[k].rng.Has(a) {
        ByteAtHolds(es, k, a);
      } else {
        forall i | 0 <= i < |es| ensures !Holds(es, i, a) {
          if i > k { assert es[k].rng.hi < es[i].rng.lo; }
          if i < k { assert es[i].rng.hi < es[k].rng.lo; }
        }
        NothingStaged(es, a);
      }
    }
  }

  /** One of the first n segments covers the first byte of word x. */
  predicate Covered(es: seq<Segment>, n: nat, width: nat, x: nat)
    requires n <= |es|
  {
    exists k | 0 <= k < n :: es[k].rng.Has(x * width)
  }

  /** Word x after the first n segments: the bytes of the segment that covers it, zeros after its
      end, or the old word. */
  lemma {:induction false} WordAfter(mem: seq<Word>, es: seq<Segment>, width: nat, n: nat, x: nat, j: nat)
    requires width > 0 && Disjoint(es) && AllFit(es) && Aligned(es, width) && n <= |es|
    requires x < |mem| && |mem[x]| == width && j < width
    ensures |WriteAll(mem, es, width, n)[x]| == width
    ensures WriteAll(mem, es, width, n)[x][j] ==
            if Covered(es, n, width, x) then OrZero(WordByte(es, width, x, j)) else mem[x][j]
    decreases n
  {
    if n > 0 {
      var before := WriteAll(mem, es, width, n - 1);
      WordAfter(mem, es, width, n - 1, x, j);
      LastSegment(before, es, width, n, x, j);
    }
  }

  lemma LastSegment(before: seq<Word>, es: seq<Segment>, width: nat, n: nat, x: nat, j: nat)
    requires width > 0 && Disjoint(es) && AllFit(es) && Aligned(es, width) && 0 < n <= |es|
    requires x < |before| && |before[x]| == width && j < width
    ensures var e := es[n - 1];
            var w := Written(before, e.rng.lo / width, e.val, width)[x];
            && |w| == width
            && w[j] == (if e.rng.Has(x * width) then OrZero(WordByte(es, width, x, j)) else before[x][j])
  {
    var e := es[n - 1];
    WordOfOneSegment(es, width, n - 1, x, j);
    if e.rng.Has(x * width) {
      SegmentWordByte(before, e, width, x, j);
    } else {
      WritesWord(e, width, x);
      assert Written(before, e.rng.lo / width, e.val, width)[x] == before[x];
    }
  }

  lemma SegmentWordByte(mem: seq<Word>, e: Segment, width: nat, x: nat, j: nat)
    requires width > 0 && Fits(e) && e.rng.lo % width == 0 && e.rng.Has(x * width)
    requires x < |mem| && j < width
    ensures var w := Written(mem, e.rng.lo / width, e.val, width)[x];
            |w| == width && w[j] == if e.rng.Has(x * width + j) then e.val[x * width + j - e.rng.lo] else 0
  {
    WritesWord(e, width, x);
    var i := x - e.rng.lo / width;
    assert Written(mem, e.rng.lo / width, e.val, width)[x] == WordOf(e.val, width, i);
    assert x * width + j - e.rng.lo == i * width + j;
  }

  /** A word is touched exactly when its first byte is staged, since segments start aligned. */
  lemma TouchedIsCovered(es: seq<Segment>, width: nat, x: nat)
    requires width > 0 && Disjoint(es) && AllFit(es) && Aligned(es, width)
    ensures TouchesWord(es, width, x) <==> Covered(es, |es|, width, x)
  {
    if TouchesWord(es, width, x) {
      var i: nat :| i < width && WordByte(es, width, x, i).Some?;
      var k := ByteAtSome(es, x * width + i);
      WordOfOneSegment(es, width, k, x, i);
    }
    if Covered(es, |es|, width, x) {
      var k: nat :| k < |es| && es[k].rng.Has(x * width);
      ByteAtHolds(es, k, x * width);
      assert WordByte(es, width, x, 0).Some?;
    }
  }

  /** All staged segments written: in a touched word the staged bytes with zeros for the rest, and
      every other word unchanged. */
  lemma WordLoaded(mem: seq<Word>, es: seq<Segment>, width: nat, x: nat, j: nat)
    requires width > 0 && Disjoint(es) && AllFit(es) && Aligned(es, width)
    requires x < |mem| && |mem[x]| == width && j < width
    ensures |WriteAll(mem, es, width, |es|)[x]| == width
    ensures WriteAll(mem, es, width, |es|)[x][j] ==
            if TouchesWord(es, width, x) then OrZero(WordByte(es, width, x, j)) else mem[x][j]
  {
    WordAfter(mem, es, width, |es|, x, j);
    TouchedIsCovered(es, width, x);
  }

  /** Aligned bytes below the end of a memory lie in its words. */
  lemma WordsInMemory(lo: nat, len: nat, width: nat, numWords: nat)
    requires width > 0 && lo % width == 0 && len > 0 && lo + len <= numWords * width
    ensures lo / width + NumWords(len, width) <= numWords
  {
    var q, n := lo / width, NumWords(len, width);
    Quotient(lo, width);
    WordFits(len, width, n - 1);
    if q + n > numWords {
      Distribute(q, n - 1, width);
      AtLeast(numWords, q + n - 1, width);
      assert false;
    }
  }

  lemma Distribute(x: nat, y: nat, width: nat)
    ensures (x + y) * width == x * width + y * width
  {
  }

  lemma AtLeast(x: nat, y: nat, width: nat)
    requires x <= y
    ensures x * width <= y * width
  {
  }

  /** The word range of a staged segment lies inside the memory. */
  lemma SegmentInMemory(a: Area, es: seq<Segment>, k: nat)
    requires a.mem.Valid() && ShapeRight(a, es) && k < |es|
    ensures es[k].rng.lo / a.mem.widthByte + NumWords(|es[k].val|, a.mem.widthByte) <= a.mem.numWords
  {
    assert Fits(es[k]) && es[k].rng.lo % a.mem.widthByte == 0 && es[k].rng.hi < a.mem.SizeBytes();
    SizeWithinWords(a.mem);
    WordsInMemory(es[k].rng.lo, |es[k].val|, a.mem.widthByte, a.mem.numWords);
  }

  lemma SizeWithinWords(m: MemArea)
    ensures m.SizeBytes() <= m.numWords * m.widthByte
  {
    var p := m.numWords * m.widthByte;
    assert p >= 0;
    assert p % U32 <= p;
  }

  /** Every memory named in the staging area is registered. */
  lemma {:induction false} StagedNames(areas: seq<Area>, phdrs: seq<Phdr>, file: seq<Byte>, name: string)
    requires name in StageAll(areas, phdrs, file)
    ensures exists k | 0 <= k < |areas| :: areas[k].name == name
    decreases |phdrs|
  {
    var p := phdrs[|phdrs| - 1];
    if name in StageAll(areas, phdrs[..|phdrs| - 1], file) {
      StagedNames(areas, phdrs[..|phdrs| - 1], file, name);
    } else {
      assert areas[RegionOf(areas, p.paddr)].name == name;
    }
  }

  /** Every staged name leads through the name map to an area its segments suit. */
  predicate StagingRegistered(areas: seq<Area>, nameToMem: map<string, nat>, v: Staging) {
    forall n | n in v :: n in nameToMem && StagedAt(areas, nameToMem[n], n, v[n].segs)
  }

  predicate StagedAt(areas: seq<Area>, k: nat, name: string, es: seq<Segment>) {
    k < |areas| && areas[k].name == name && ShapeRight(areas[k], es)
  }

  lemma StagedIsRegistered(areas: seq<Area>, nameToMem: map<string, nat>, addrToMem: seq<Entry<nat>>,
                           phdrs: seq<Phdr>, file: seq<Byte>)
    requires RegistryValid(areas, nameToMem, addrToMem) && Accepted(areas, phdrs, |file|)
    ensures StagingRegistered(areas, nameToMem, StageAll(areas, phdrs, file)) && NamesUnique(areas)
  {
    var v := StageAll(areas, phdrs, file);
    forall n | n in v ensures n in nameToMem && StagedAt(areas, nameToMem[n], n, v[n].segs) {
      StagedNames(areas, phdrs, file, n);
      var k :| 0 <= k < |areas| && areas[k].name == n;
      StagingIsImage(areas, nameToMem, addrToMem, phdrs, file, k);
    }
    forall j, k | 0 <= j < k < |areas| ensures areas[j].name != areas[k].name {
      NamesDistinct(areas, nameToMem, j, k);
    }
  }

  /** The order of names, which is that of std::map. */
  predicate Less(a: string, b: string)
    decreases |a|
  {
    b != [] && (a == [] || a[0] < b[0] || (a[0] == b[0] && Less(a[1..], b[1..])))
  }

  lemma {:induction false} LessTotal(a: string, b: string)
    requires a != b
    ensures Less(a, b) || Less(b, a)
    decreases |a|
  {
    if a != [] && b != [] && a[0] == b[0] {
      assert a == [a[0]] + a[1..] && b == [b[0]] + b[1..];
      LessTotal(a[1..], b[1..]);
    }
  }

  lemma {:induction false} LessTransitive(a: string, b: string, c: string)
    requires Less(a, b) && Less(b, c)
    ensures Less(a, c)
    decreases |a|
  {
    if a != [] && a[0] == b[0] == c[0] { LessTransitive(a[1..], b[1..], c[1..]); }
  }

  predicate IsFirst(n: string, names: set<string>) {
    n in names && forall m | m in names && m != n :: Less(n, m)
  }

  /** Some names have a first one. */
  lemma {:induction false} FirstName(names: set<string>) returns (n: string)
    requires names != {}
    ensures IsFirst(n, names)
    decreases names
  {
    n :| n in names;
    if names != {n} {
      var first := FirstName(names - {n});
      LessTotal(first, n);
      if Less(first, n) {
        n := first;
      } else {
        forall m | m in names && m != n ensures Less(n, m) {
          if m != first { LessTransitive(n, first, m); }
        }
      }
    }
  }

  predicate NamesUnique(areas: seq<Area>) {
    forall j, k | 0 <= j < k < |areas| :: areas[j].name != areas[k].name
  }

  predicate AllMatch(areas: seq<Area>, mems: map<string, seq<Word>>) {
    forall k | 0 <= k < |areas| :: Matches(areas[k].mem, mems)
  }

  predicate AllConnected(areas: seq<Area>, mems: map<string, seq<Word>>) {
    forall k | 0 <= k < |areas| :: Connected(areas[k].mem, mems)
  }

  /** The memory of an area with its staged segments written. */
  function LoadedMem(a: Area, staging: Staging, mem: seq<Word>): (r: seq<Word>)
    requires a.mem.Valid()
    ensures |r| == |mem|
  {
    var es := Get(staging, a.name).segs;
    WriteAll(mem, es, a.mem.widthByte, |es|)
  }

  /** Every area's staging suits its memory. */
  predicate Suits(areas: seq<Area>, staging: Staging) {
    forall k | 0 <= k < |areas| :: ShapeRight(areas[k], Get(staging, areas[k].name).segs)
  }

  lemma RegisteredSuits(areas: seq<Area>, nameToMem: map<string, nat>, staging: Staging)
    requires StagingRegistered(areas, nameToMem, staging) && NamesUnique(areas)
    ensures Suits(areas, staging)
  {
    forall k | 0 <= k < |areas| ensures ShapeRight(areas[k], Get(staging, areas[k].name).segs) {
      if areas[k].name in staging {
        assert StagedAt(areas, nameToMem[areas[k].name], areas[k].name, staging[areas[k].name].segs);
      }
    }
  }

  /** Area k is the memory at this scope, and something is staged for its word x. */
  predicate Touches(areas: seq<Area>, staging: Staging, scope: string, x: nat, k: nat)
    requires Suits(areas, staging)
  {
    && k < |areas| && areas[k].mem.scope == scope
    && TouchesWord(Get(staging, areas[k].name).segs, areas[k].mem.widthByte, x)
  }

  /** Of the named areas that touch word x of a memory, the last in the order of names. */
  predicate LastToTouch(areas: seq<Area>, staging: Staging, done: set<string>, scope: string, x: nat, k: nat)
    requires Suits(areas, staging)
  {
    && Touches(areas, staging, scope, x, k) && areas[k].name in done
    && forall j | 0 <= j < |areas| && j != k && areas[j].name in done && Touches(areas, staging, scope, x, j) ::
         Less(areas[j].name, areas[k].name)
  }

  predicate NoneTouches(areas: seq<Area>, staging: Staging, done: set<string>, scope: string, x: nat)
    requires Suits(areas, staging)
  {
    forall k | 0 <= k < |areas| && areas[k].name in done :: !Touches(areas, staging, scope, x, k)
  }

  /** A word after the staged data of the named areas has been written: the last area that touches it
      has written it, and it is as before when none does. */
  predicate WordLoadedFor(areas: seq<Area>, staging: Staging, done: set<string>, scope: string, x: nat,
                          mem: seq<Word>, w: Word)
    requires Suits(areas, staging) && x < |mem| && forall k | 0 <= k < |areas| :: areas[k].mem.Valid()
  {
    || (NoneTouches(areas, staging, done, scope, x) && w == mem[x])
    || exists k | 0 <= k < |areas| ::
         LastToTouch(areas, staging, done, scope, x, k) && w == LoadedMem(areas[k], staging, mem)[x]
  }

  predicate MemLoadedFor(areas: seq<Area>, staging: Staging, done: set<string>, scope: string,
                         before: seq<Word>, after: seq<Word>)
    requires Suits(areas, staging) && forall k | 0 <= k < |areas| :: areas[k].mem.Valid()
  {
    && |after| == |before|
    && forall x | 0 <= x < |before| :: WordLoadedFor(areas, staging, done, scope, x, before, after[x])
  }

  /** The memories after the staged data of the named areas has been written, and no other. */
  predicate LoadedFor(areas: seq<Area>, staging: Staging, done: set<string>,
                      before: map<string, seq<Word>>, after: map<string, seq<Word>>)
    requires AllMatch(areas, before) && Suits(areas, staging)
  {
    && after.Keys == before.Keys
    && forall s | s in before :: MemLoadedFor(areas, staging, done, s, before[s], after[s])
  }

  /** A written word does not depend on what the memory held; an untouched one keeps it. */
  lemma TouchedForgets(a: Area, es: seq<Segment>, m1: seq<Word>, m2: seq<Word>, x: nat)
    requires a.mem.Valid() && ShapeRight(a, es) && x < |m1| == |m2|
    requires |m1[x]| == |m2[x]| == a.mem.widthByte
    ensures var w := WriteAll(m1, es, a.mem.widthByte, |es|)[x];
            w == if TouchesWord(es, a.mem.widthByte, x) then WriteAll(m2, es, a.mem.widthByte, |es|)[x] else m1[x]
  {
    var width := a.mem.widthByte;
    var v, w := WriteAll(m1, es, width, |es|)[x], WriteAll(m2, es, width, |es|)[x];
    WordLoaded(m1, es, width, x, 0);
    WordLoaded(m2, es, width, x, 0);
    forall j | 0 <= j < width
      ensures v[j] == if TouchesWord(es, width, x) then w[j] else m1[x][j]
    {
      WordLoaded(m1, es, width, x, j);
      WordLoaded(m2, es, width, x, j);
    }
  }

  /** One more name whose area does not touch the word changes nothing for it. */
  lemma WordKept(areas: seq<Area>, staging: Staging, done: set<string>, k: nat, scope: string, x: nat,
                 mem: seq<Word>, w: Word)
    requires Suits(areas, staging) && x < |mem| && forall i | 0 <= i < |areas| :: areas[i].mem.Valid()
    requires k < |areas| && NamesUnique(areas) && !Touches(areas, staging, scope, x, k)
    requires WordLoadedFor(areas, staging, done, scope, x, mem, w)
    ensures WordLoadedFor(areas, staging, done + {areas[k].name}, scope, x, mem, w)
  {
    var more := done + {areas[k].name};
    forall j | 0 <= j < |areas| && areas[j].name in more && Touches(areas, staging, scope, x, j)
      ensures areas[j].name in done
    {
      if j != k { OtherName(areas, j, k); }
    }
    if !NoneTouches(areas, staging, done, scope, x) {
      var i :| 0 <= i < |areas| && LastToTouch(areas, staging, done, scope, x, i)
               && w == LoadedMem(areas[i], staging, mem)[x];
      assert LastToTouch(areas, staging, more, scope, x, i);
    }
  }

  /** One more name, after all others in the order of names, whose area touches the word. */
  lemma WordWritten(areas: seq<Area>, staging: Staging, done: set<string>, k: nat, scope: string, x: nat,
                    mem: seq<Word>, w: Word)
    requires Suits(areas, staging) && x < |mem| && forall i | 0 <= i < |areas| :: areas[i].mem.Valid()
    requires k < |areas| && NamesUnique(areas) && Touches(areas, staging, scope, x, k)
    requires forall n | n in done :: Less(n, areas[k].name)
    requires w == LoadedMem(areas[k], staging, mem)[x]
    ensures WordLoadedFor(areas, staging, done + {areas[k].name}, scope, x, mem, w)
  {
    forall j | 0 <= j < |areas| && j != k && areas[j].name in done + {areas[k].name}
      ensures Less(areas[j].name, areas[k].name)
    {
      OtherName(areas, j, k);
    }
    assert LastToTouch(areas, staging, done + {areas[k].name}, scope, x, k);
  }

  /** Writing the staged data of one more area, the next in the order of names. */
  lemma LoadedStep(areas: seq<Area>, staging: Staging, done: set<string>, k: nat,
                   before: map<string, seq<Word>>, mid: map<string, seq<Word>>)
    requires AllMatch(areas, before) && AllMatch(areas, mid) && Suits(areas, staging) && k < |areas|
    requires NamesUnique(areas) && forall n | n in done :: Less(n, areas[k].name)
    requires LoadedFor(areas, staging, done, before, mid)
    ensures var s := areas[k].mem.scope;
            LoadedFor(areas, staging, done + {areas[k].name}, before,
                      Put(mid, s, LoadedMem(areas[k], staging, Words(areas[k].mem, mid))))
  {
    var after := Put(mid, areas[k].mem.scope, LoadedMem(areas[k], staging, Words(areas[k].mem, mid)));
    assert after.Keys == mid.Keys;
    forall s | s in before
      ensures MemLoadedFor(areas, staging, done + {areas[k].name}, s, before[s], after[s])
    {
      assert MemLoadedFor(areas, staging, done, s, before[s], mid[s]);
      forall x | 0 <= x < |before[s]|
        ensures WordLoadedFor(areas, staging, done + {areas[k].name}, s, x, before[s], after[s][x])
      {
        WordStep(areas, staging, done, k, s, x, before[s], mid[s], after[s]);
      }
    }
  }

  lemma WordStep(areas: seq<Area>, staging: Staging, done: set<string>, k: nat, s: string, x: nat,
                 before: seq<Word>, mid: seq<Word>, after: seq<Word>)
    requires Suits(areas, staging) && forall i | 0 <= i < |areas| :: areas[i].mem.Valid()
    requires k < |areas| && NamesUnique(areas) && forall n | n in done :: Less(n, areas[k].name)
    requires x < |before| == |mid| && WordLoadedFor(areas, staging, done, s, x, before, mid[x])
    requires s == areas[k].mem.scope ==> |before[x]| == |mid[x]| == areas[k].mem.widthByte
    requires after == if s == areas[k].mem.scope then LoadedMem(areas[k], staging, mid) else mid
    ensures WordLoadedFor(areas, staging, done + {areas[k].name}, s, x, before, after[x])
  {
    if s == areas[k].mem.scope {
      TouchedForgets(areas[k], Get(staging, areas[k].name).segs, mid, before, x);
    }
    if Touches(areas, staging, s, x, k) {
      WordWritten(areas, staging, done, k, s, x, before, after[x]);
    } else {
      WordKept(areas, staging, done, k, s, x, before, mid[x]);
    }
  }

  lemma OtherName(areas: seq<Area>, i: nat, k: nat)
    requires NamesUnique(areas) && i < |areas| && k < |areas| && i != k
    ensures areas[i].name != areas[k].name
  {
    var x, y := if i < k then i else k, if i < k then k else i;
    assert areas[x].name != areas[y].name;
  }

  /** Each word is as before or as after the whole write. */
  predicate Partly(before: seq<Word>, full: seq<Word>, after: seq<Word>) {
    && |before| == |full| == |after|
    && forall x | 0 <= x < |after| :: after[x] == before[x] || after[x] == full[x]
  }

  /** A word after a load that was refused somewhere: as before, or as an area that touches it writes it. */
  predicate WordPartlyLoaded(areas: seq<Area>, staging: Staging, scope: string, x: nat, mem: seq<Word>, w: Word)
    requires Suits(areas, staging) && x < |mem| && forall k | 0 <= k < |areas| :: areas[k].mem.Valid()
  {
    || w == mem[x]
    || exists k | 0 <= k < |areas| ::
         Touches(areas, staging, scope, x, k) && w == LoadedMem(areas[k], staging, mem)[x]
  }

  predicate MemPartlyLoaded(areas: seq<Area>, staging: Staging, scope: string, before: seq<Word>, after: seq<Word>)
    requires Suits(areas, staging) && forall k | 0 <= k < |areas| :: areas[k].mem.Valid()
  {
    && |after| == |before|
    && forall x | 0 <= x < |before| :: WordPartlyLoaded(areas, staging, scope, x, before, after[x])
  }

  predicate PartlyLoaded(areas: seq<Area>, staging: Staging,
                         before: map<string, seq<Word>>, after: map<string, seq<Word>>)
    requires AllMatch(areas, before) && Suits(areas, staging)
  {
    && after.Keys == before.Keys
    && forall s | s in before :: MemPartlyLoaded(areas, staging, s, before[s], after[s])
  }

  /** The load of some areas followed by a partial load of another. */
  lemma PartStep(areas: seq<Area>, staging: Staging, done: set<string>, k: nat,
                 before: map<string, seq<Word>>, mid: map<string, seq<Word>>, words: seq<Word>)
    requires AllMatch(areas, before) && AllMatch(areas, mid) && Suits(areas, staging) && k < |areas|
    requires LoadedFor(areas, staging, done, before, mid)
    requires var mem := Words(areas[k].mem, mid); Partly(mem, LoadedMem(areas[k], staging, mem), words)
    ensures PartlyLoaded(areas, staging, before, Put(mid, areas[k].mem.scope, words))
  {
    var after := Put(mid, areas[k].mem.scope, words);
    assert after.Keys == mid.Keys;
    forall s | s in before ensures MemPartlyLoaded(areas, staging, s, before[s], after[s]) {
      assert MemLoadedFor(areas, staging, done, s, before[s], mid[s]);
      forall x | 0 <= x < |before[s]| ensures WordPartlyLoaded(areas, staging, s, x, before[s], after[s][x]) {
        PartWord(areas, staging, done, k, s, x, before[s], mid[s], after[s][x]);
      }
    }
  }

  lemma PartWord(areas: seq<Area>, staging: Staging, done: set<string>, k: nat, s: string, x: nat,
                 before: seq<Word>, mid: seq<Word>, w: Word)
    requires Suits(areas, staging) && forall i | 0 <= i < |areas| :: areas[i].mem.Valid()
    requires k < |areas| && x < |before| == |mid| && WordLoadedFor(areas, staging, done, s, x, before, mid[x])
    requires s == areas[k].mem.scope ==> |before[x]| == |mid[x]| == areas[k].mem.widthByte
    requires w == mid[x] || (s == areas[k].mem.scope && w == LoadedMem(areas[k], staging, mid)[x])
    ensures WordPartlyLoaded(areas, staging, s, x, before, w)
  {
    if s == areas[k].mem.scope {
      TouchedForgets(areas[k], Get(staging, areas[k].name).segs, mid, before, x);
      assert Touches(areas, staging, s, x, k) || LoadedMem(areas[k], staging, mid)[x] == mid[x];
    }
  }

  /** A word is written at most once: part of the way it is as before or as at the end. */
  lemma WordOnce(mem: seq<Word>, es: seq<Segment>, width: nat, n: nat, x: nat)
    requires width > 0 && Disjoint(es) && AllFit(es) && Aligned(es, width) && n <= |es|
    requires x < |mem| && |mem[x]| == width
    ensures WriteAll(mem, es, width, n)[x] == mem[x] ||
            WriteAll(mem, es, width, n)[x] == WriteAll(mem, es, width, |es|)[x]
  {
    var w, full := WriteAll(mem, es, width, n)[x], WriteAll(mem, es, width, |es|)[x];
    WordAfter(mem, es, width, n, x, 0);
    WordAfter(mem, es, width, |es|, x, 0);
    forall j | 0 <= j < width
      ensures w[j] == if Covered(es, n, width, x) then full[j] else mem[x][j]
    {
      WordAfter(mem, es, width, n, x, j);
      WordAfter(mem, es, width, |es|, x, j);
    }
    assert if Covered(es, n, width, x) then w == full else w == mem[x];
  }

  /** A memory in which the write of segment i has stopped after t words. */
  function StoppedWrite(mem: seq<Word>, es: seq<Segment>, width: nat, i: nat, t: nat): seq<Word>
    requires width > 0 && i < |es|
  {
    WrittenUpTo(WriteAll(mem, es, width, i), es[i].rng.lo / width, es[i].val, width, t)
  }

  lemma StoppedIsPartly(mem: seq<Word>, es: seq<Segment>, width: nat, i: nat, t: nat)
    requires width > 0 && Disjoint(es) && AllFit(es) && Aligned(es, width) && i < |es|
    requires t <= NumWords(|es[i].val|, width) && forall x | 0 <= x < |mem| :: |mem[x]| == width
    ensures Partly(mem, WriteAll(mem, es, width, |es|), StoppedWrite(mem, es, width, i, t))
  {
    var part := StoppedWrite(mem, es, width, i, t);
    forall x | 0 <= x < |mem|
      ensures part[x] == mem[x] || part[x] == WriteAll(mem, es, width, |es|)[x]
    {
      WordOnce(mem, es, width, i, x);
      WordOnce(mem, es, width, i + 1, x);
      assert part[x] == WriteAll(mem, es, width, i)[x] || part[x] == WriteAll(mem, es, width, i + 1)[x];
    }
  }

  /** The simulation has every word that a segment of an area takes. */
  predicate SegmentFits(a: Area, e: Segment, mems: map<string, seq<Word>>)
    requires a.mem.Valid()
  {
    e.rng.lo / a.mem.widthByte + NumWords(|e.val|, a.mem.widthByte) <= |Words(a.mem, mems)|
  }

  predicate SegmentsFit(a: Area, es: seq<Segment>, mems: map<string, seq<Word>>)
    requires a.mem.Valid()
  {
    forall k | 0 <= k < |es| :: SegmentFits(a, es[k], mems)
  }

  /** What is staged for every area fits the simulation. */
  predicate StagedFits(areas: seq<Area>, staging: Staging, mems: map<string, seq<Word>>)
    requires AllMatch(areas, mems)
  {
    forall k | 0 <= k < |areas| :: SegmentsFit(areas[k], Get(staging, areas[k].name).segs, mems)
  }

  // ---------------------------------------------------------------- the image in the memories

  /** The offset of byte j of word x. */
  function ByteOffset(a: Area, x: nat, j: nat): nat {
    x * a.mem.widthByte + j
  }

  /** The image's byte for byte j of word x of an area: that at its address, and none past the range. */
  function ImageByte(a: Area, phdrs: seq<Phdr>, file: seq<Byte>, x: nat, j: nat): Option<Byte> {
    AreaByte(a, phdrs, file, ByteOffset(a, x, j))
  }

  /** Some byte of word x comes from the image. */
  predicate ImageTouches(a: Area, phdrs: seq<Phdr>, file: seq<Byte>, x: nat) {
    exists j | 0 <= j < a.mem.widthByte :: ImageByte(a, phdrs, file, x, j).Some?
  }

  lemma OffsetBelowSize(x: nat, i: nat, width: nat, numWords: nat)
    requires x < numWords && i < width
    ensures x * width + i < numWords * width
  {
    assert (x + 1) * width <= numWords * width;
    assert (x + 1) * width == x * width + width;
  }

  /** The number of addresses in the registered range. */
  function RangeBytes(a: Area): int {
    a.Rng().hi - a.Rng().lo + 1
  }

  /** The registered range is the whole memory exactly when the byte size is at most 2^32; past that it
      is what is left of the size in 32 bits. */
  lemma RangeIsWholeMemory(a: Area)
    requires ValidArea(a)
    ensures RangeBytes(a) == a.mem.numWords * a.mem.widthByte <==> a.mem.numWords * a.mem.widthByte <= U32
    ensures RangeBytes(a) == if a.mem.SizeBytes() == 0 then U32 else a.mem.SizeBytes()
  {
    SizePositive(a.mem);
    SizeModulo(a.mem.numWords * a.mem.widthByte);
    RangeOfSize(a, a.mem.SizeBytes());
  }

  lemma SizePositive(m: MemArea)
    requires m.Valid()
    ensures m.numWords * m.widthByte > 0
  {
  }

  lemma RangeOfSize(a: Area, size: nat)
    requires ValidArea(a) && size == a.mem.SizeBytes()
    ensures RangeBytes(a) == if size == 0 then U32 else size
  {
  }

  /** What is left of a size in 32 bits, with 2^32 for zero, is the size itself up to 2^32 only. */
  lemma SizeModulo(size: nat)
    requires size > 0
    ensures (if size % U32 == 0 then U32 else size % U32) == size <==> size <= U32
  {
  }

  /** 2^32 bytes wrap to size zero: the range is the whole memory, but no segment is accepted there. */
  lemma SizeWrapsToZero(areas: seq<Area>, addrToMem: seq<Entry<nat>>, name: string, p: Phdr, k: nat)
    requires RangesValid(areas, addrToMem) && k < |areas| && p.filesz > 0
    requires areas[k] == Area(MemArea("m", 0x4000_0000, 4), 0, name)
    ensures ValidArea(areas[k]) && areas[k].mem.SizeBytes() == 0
    ensures areas[k].Rng() == Range(0, 0xFFFF_FFFF) && RangeBytes(areas[k]) == 0x4000_0000 * 4
    ensures Region(areas, p) != Ok(k)
  {
    assert areas[k].mem.SizeBytes() == 0;
    RegionContainsSegment(areas, addrToMem, p, k);
  }

  /** One word more, and the range is the first word alone. */
  lemma SizeWraps(name: string)
    ensures var a := Area(MemArea("m", 0x4000_0001, 4), 0, name);
            ValidArea(a) && a.mem.SizeBytes() == 4 && a.Rng() == Range(0, 3)
  {
    assert MemArea("m", 0x4000_0001, 4).SizeBytes() == 4;
  }

  /** Byte j of word x has an address in the registered range. */
  predicate ByteInArea(a: Area, x: nat, j: nat) {
    InArea(a, ByteOffset(a, x, j))
  }

  /** Each byte of a memory has an address in its range, so that it is that of the image there, exactly
      when the byte size is at most 2^32. */
  lemma WholeMemoryInArea(a: Area, phdrs: seq<Phdr>, file: seq<Byte>)
    requires ValidArea(a)
    ensures a.mem.numWords * a.mem.widthByte <= U32 <==>
              forall x: nat, j: nat | x < a.mem.numWords && j < a.mem.widthByte :: ByteInArea(a, x, j)
    ensures forall x: nat, j: nat | ByteInArea(a, x, j) ::
              ImageByte(a, phdrs, file, x, j) == ElfByte(phdrs, file, a.base + ByteOffset(a, x, j))
  {
    var width, size := a.mem.widthByte, a.mem.numWords * a.mem.widthByte;
    RangeIsWholeMemory(a);
    if size <= U32 {
      forall x: nat, j: nat | x < a.mem.numWords && j < width ensures ByteInArea(a, x, j) {
        OffsetBelowSize(x, j, width, a.mem.numWords);
      }
    } else {
      OffsetBelowSize(a.mem.numWords - 1, width - 1, width, a.mem.numWords);
      LastByte(a.mem.numWords, width);
      assert !ByteInArea(a, a.mem.numWords - 1, width - 1);
    }
  }

  lemma LastByte(n: nat, width: nat)
    requires n > 0 && width > 0
    ensures (n - 1) * width + (width - 1) == n * width - 1
  {
  }

  lemma TouchesIsImage(a: Area, es: seq<Segment>, phdrs: seq<Phdr>, file: seq<Byte>, x: nat)
    requires StagedRight(a, es, phdrs, file)
    ensures TouchesWord(es, a.mem.widthByte, x) <==> ImageTouches(a, phdrs, file, x)
  {
    forall i | 0 <= i < a.mem.widthByte
      ensures WordByte(es, a.mem.widthByte, x, i) == ImageByte(a, phdrs, file, x, i)
    {
    }
    if i: nat :| i < a.mem.widthByte && WordByte(es, a.mem.widthByte, x, i).Some? {
      assert ImageByte(a, phdrs, file, x, i).Some?;
    }
    if i: nat :| i < a.mem.widthByte && ImageByte(a, phdrs, file, x, i).Some? {
      assert WordByte(es, a.mem.widthByte, x, i).Some?;
    }
  }

  /** Byte j of a word that holds the image: the image's byte when it has one, zero when the image only
      covers another part of the word, and what it was before when the image does not touch the word. */
  function ImageWordByte(a: Area, phdrs: seq<Phdr>, file: seq<Byte>, w: Word, x: nat, j: nat): Byte
    requires j < |w|
  {
    if ImageTouches(a, phdrs, file, x) then OrZero(ImageByte(a, phdrs, file, x, j)) else w[j]
  }

  predicate WordHoldsImage(a: Area, phdrs: seq<Phdr>, file: seq<Byte>, x: nat, before: Word, after: Word) {
    && |after| == |before| == a.mem.widthByte
    && forall j | 0 <= j < |after| :: after[j] == ImageWordByte(a, phdrs, file, before, x, j)
  }

  lemma StagedByteLoads(a: Area, es: seq<Segment>, phdrs: seq<Phdr>, file: seq<Byte>, mem: seq<Word>, x: nat, j: nat)
    requires ValidArea(a) && StagedRight(a, es, phdrs, file)
    requires x < |mem| && |mem[x]| == a.mem.widthByte && j < a.mem.widthByte
    ensures var w := WriteAll(mem, es, a.mem.widthByte, |es|)[x];
            |w| == a.mem.widthByte && w[j] == ImageWordByte(a, phdrs, file, mem[x], x, j)
  {
    TouchesIsImage(a, es, phdrs, file, x);
    WordLoaded(mem, es, a.mem.widthByte, x, j);
    assert WordByte(es, a.mem.widthByte, x, j) == ImageByte(a, phdrs, file, x, j);
  }

  /** Writing what is rightly staged for an area puts the image's bytes into its memory. */
  lemma StagedLoads(a: Area, es: seq<Segment>, phdrs: seq<Phdr>, file: seq<Byte>, mem: seq<Word>, x: nat)
    requires ValidArea(a) && StagedRight(a, es, phdrs, file)
    requires x < |mem| && |mem[x]| == a.mem.widthByte
    ensures WordHoldsImage(a, phdrs, file, x, mem[x], WriteAll(mem, es, a.mem.widthByte, |es|)[x])
  {
    var w := WriteAll(mem, es, a.mem.widthByte, |es|)[x];
    StagedByteLoads(a, es, phdrs, file, mem, x, 0);
    forall j | 0 <= j < |w| ensures w[j] == ImageWordByte(a, phdrs, file, mem[x], x, j) {
      StagedByteLoads(a, es, phdrs, file, mem, x, j);
    }
  }

  /** Every word of a memory holds the image. */
  predicate HoldsImage(a: Area, phdrs: seq<Phdr>, file: seq<Byte>, before: seq<Word>, after: seq<Word>) {
    && |after| == |before|
    && forall x | 0 <= x < |after| :: WordHoldsImage(a, phdrs, file, x, before[x], after[x])
  }

  lemma LoadedWordIsImage(areas: seq<Area>, nameToMem: map<string, nat>, addrToMem: seq<Entry<nat>>,
                          phdrs: seq<Phdr>, file: seq<Byte>, mem: seq<Word>, x: nat, k: nat)
    requires RegistryValid(areas, nameToMem, addrToMem) && Accepted(areas, phdrs, |file|) && k < |areas|
    requires x < |mem| && |mem[x]| == areas[k].mem.widthByte
    ensures WordHoldsImage(areas[k], phdrs, file, x, mem[x],
                           LoadedMem(areas[k], StageAll(areas, phdrs, file), mem)[x])
  {
    StagingIsImage(areas, nameToMem, addrToMem, phdrs, file, k);
    StagedLoads(areas[k], Get(StageAll(areas, phdrs, file), areas[k].name).segs, phdrs, file, mem, x);
  }

  /** End to end: staging an accepted image and writing what is staged for area k puts the image
      into its memory. */
  lemma LoadedIsImage(areas: seq<Area>, nameToMem: map<string, nat>, addrToMem: seq<Entry<nat>>,
                      phdrs: seq<Phdr>, file: seq<Byte>, mem: seq<Word>, k: nat)
    requires RegistryValid(areas, nameToMem, addrToMem) && Accepted(areas, phdrs, |file|) && k < |areas|
    requires forall x | 0 <= x < |mem| :: |mem[x]| == areas[k].mem.widthByte
    ensures HoldsImage(areas[k], phdrs, file, mem, LoadedMem(areas[k], StageAll(areas, phdrs, file), mem))
  {
    var v := StageAll(areas, phdrs, file);
    forall x | 0 <= x < |mem| ensures WordHoldsImage(areas[k], phdrs, file, x, mem[x], LoadedMem(areas[k], v, mem)[x]) {
      LoadedWordIsImage(areas, nameToMem, addrToMem, phdrs, file, mem, x, k);
    }
  }

  /** Area k is the memory at this scope, and the image has a byte of its word x. */
  predicate ImageIn(areas: seq<Area>, phdrs: seq<Phdr>, file: seq<Byte>, scope: string, x: nat, k: nat) {
    k < |areas| && areas[k].mem.scope == scope && ImageTouches(areas[k], phdrs, file, x)
  }

  /** Of the areas through which the image reaches word x of a memory, the last in the order of names. */
  predicate LastImageIn(areas: seq<Area>, phdrs: seq<Phdr>, file: seq<Byte>, scope: string, x: nat, k: nat) {
    && ImageIn(areas, phdrs, file, scope, x, k)
    && forall j | 0 <= j < |areas| && j != k && ImageIn(areas, phdrs, file, scope, x, j) ::
         Less(areas[j].name, areas[k].name)
  }

  /** A word after a load: it holds the image of the last area through which the image reaches it, and is
      as before when the image does not reach it. */
  predicate WordOfImage(areas: seq<Area>, phdrs: seq<Phdr>, file: seq<Byte>, scope: string, x: nat,
                        before: Word, after: Word) {
    || ((forall k | 0 <= k < |areas| :: !ImageIn(areas, phdrs, file, scope, x, k)) && after == before)
    || exists k | 0 <= k < |areas| ::
         LastImageIn(areas, phdrs, file, scope, x, k) && WordHoldsImage(areas[k], phdrs, file, x, before, after)
  }

  /** The same for a load that was refused somewhere: as before, or the image of one of these areas. */
  predicate WordPartlyOfImage(areas: seq<Area>, phdrs: seq<Phdr>, file: seq<Byte>, scope: string, x: nat,
                              before: Word, after: Word) {
    || after == before
    || exists k | 0 <= k < |areas| ::
         ImageIn(areas, phdrs, file, scope, x, k) && WordHoldsImage(areas[k], phdrs, file, x, before, after)
  }

  /** Every word of every memory is as the image says, whichever areas a memory has. */
  predicate ImageLoaded(areas: seq<Area>, phdrs: seq<Phdr>, file: seq<Byte>,
                        before: map<string, seq<Word>>, after: map<string, seq<Word>>)
  {
    && after.Keys == before.Keys
    && (forall s | s in before :: |after[s]| == |before[s]|)
    && (forall s, x | s in before && 0 <= x < |before[s]| ::
          WordOfImage(areas, phdrs, file, s, x, before[s][x], after[s][x]))
  }

  predicate ImagePartlyLoaded(areas: seq<Area>, phdrs: seq<Phdr>, file: seq<Byte>,
                              before: map<string, seq<Word>>, after: map<string, seq<Word>>)
  {
    && after.Keys == before.Keys
    && (forall s | s in before :: |after[s]| == |before[s]|)
    && (forall s, x | s in before && 0 <= x < |before[s]| ::
          WordPartlyOfImage(areas, phdrs, file, s, x, before[s][x], after[s][x]))
  }

  /** A memory that only one area has holds that area's image. */
  lemma OneAreaHoldsImage(areas: seq<Area>, phdrs: seq<Phdr>, file: seq<Byte>,
                          before: map<string, seq<Word>>, after: map<string, seq<Word>>, k: nat)
    requires ImageLoaded(areas, phdrs, file, before, after) && k < |areas| && Matches(areas[k].mem, before)
    requires areas[k].mem.scope in before
    requires forall j | 0 <= j < |areas| && j != k :: areas[j].mem.scope != areas[k].mem.scope
    ensures HoldsImage(areas[k], phdrs, file, before[areas[k].mem.scope], after[areas[k].mem.scope])
  {
    var a, s := areas[k], areas[k].mem.scope;
    forall x | 0 <= x < |after[s]| ensures WordHoldsImage(a, phdrs, file, x, before[s][x], after[s][x]) {
      assert WordOfImage(areas, phdrs, file, s, x, before[s][x], after[s][x]);
      if ImageTouches(a, phdrs, file, x) { assert ImageIn(areas, phdrs, file, s, x, k); }
    }
  }

  /** What staging says of a word is what the image says of it. */
  lemma TouchesAreImage(areas: seq<Area>, nameToMem: map<string, nat>, addrToMem: seq<Entry<nat>>,
                        phdrs: seq<Phdr>, file: seq<Byte>, scope: string, x: nat, k: nat)
    requires RegistryValid(areas, nameToMem, addrToMem) && Accepted(areas, phdrs, |file|) && k < |areas|
    requires Suits(areas, StageAll(areas, phdrs, file))
    ensures Touches(areas, StageAll(areas, phdrs, file), scope, x, k) <==> ImageIn(areas, phdrs, file, scope, x, k)
  {
    StagingIsImage(areas, nameToMem, addrToMem, phdrs, file, k);
    TouchesIsImage(areas[k], Get(StageAll(areas, phdrs, file), areas[k].name).segs, phdrs, file, x);
  }

  /** One word of a completed load. */
  lemma WordIsLoaded(areas: seq<Area>, nameToMem: map<string, nat>, addrToMem: seq<Entry<nat>>,
                     phdrs: seq<Phdr>, file: seq<Byte>, s: string, x: nat, mem: seq<Word>, w: Word)
    requires RegistryValid(areas, nameToMem, addrToMem) && Accepted(areas, phdrs, |file|)
    requires Suits(areas, StageAll(areas, phdrs, file)) && x < |mem|
    requires forall k | 0 <= k < |areas| && areas[k].mem.scope == s :: |mem[x]| == areas[k].mem.widthByte
    requires WordLoadedFor(areas, StageAll(areas, phdrs, file), set a | a in areas :: a.name, s, x, mem, w)
    ensures WordOfImage(areas, phdrs, file, s, x, mem[x], w)
  {
    var v, done := StageAll(areas, phdrs, file), set a | a in areas :: a.name;
    forall k | 0 <= k < |areas|
      ensures areas[k].name in done
      ensures Touches(areas, v, s, x, k) <==> ImageIn(areas, phdrs, file, s, x, k)
    {
      assert areas[k] in areas;
      TouchesAreImage(areas, nameToMem, addrToMem, phdrs, file, s, x, k);
    }
    if !(NoneTouches(areas, v, done, s, x) && w == mem[x]) {
      var k :| 0 <= k < |areas| && LastToTouch(areas, v, done, s, x, k) && w == LoadedMem(areas[k], v, mem)[x];
      LoadedWordIsImage(areas, nameToMem, addrToMem, phdrs, file, mem, x, k);
      assert LastImageIn(areas, phdrs, file, s, x, k);
    }
  }

  /** One word of a refused load. */
  lemma WordIsPartlyLoaded(areas: seq<Area>, nameToMem: map<string, nat>, addrToMem: seq<Entry<nat>>,
                           phdrs: seq<Phdr>, file: seq<Byte>, s: string, x: nat, mem: seq<Word>, w: Word)
    requires RegistryValid(areas, nameToMem, addrToMem) && Accepted(areas, phdrs, |file|)
    requires Suits(areas, StageAll(areas, phdrs, file)) && x < |mem|
    requires forall k | 0 <= k < |areas| && areas[k].mem.scope == s :: |mem[x]| == areas[k].mem.widthByte
    requires WordPartlyLoaded(areas, StageAll(areas, phdrs, file), s, x, mem, w)
    ensures WordPartlyOfImage(areas, phdrs, file, s, x, mem[x], w)
  {
    var v := StageAll(areas, phdrs, file);
    if w != mem[x] {
      var k :| 0 <= k < |areas| && Touches(areas, v, s, x, k) && w == LoadedMem(areas[k], v, mem)[x];
      TouchesAreImage(areas, nameToMem, addrToMem, phdrs, file, s, x, k);
      LoadedWordIsImage(areas, nameToMem, addrToMem, phdrs, file, mem, x, k);
    }
  }

  lemma ImageIsLoaded(areas: seq<Area>, nameToMem: map<string, nat>, addrToMem: seq<Entry<nat>>,
                      phdrs: seq<Phdr>, file: seq<Byte>,
                      before: map<string, seq<Word>>, after: map<string, seq<Word>>)
    requires RegistryValid(areas, nameToMem, addrToMem) && Accepted(areas, phdrs, |file|)
    requires AllMatch(areas, before) && Suits(areas, StageAll(areas, phdrs, file))
    requires LoadedFor(areas, StageAll(areas, phdrs, file), set a | a in areas :: a.name, before, after)
    ensures ImageLoaded(areas, phdrs, file, before, after)
  {
    var v, done := StageAll(areas, phdrs, file), set a | a in areas :: a.name;
    forall s | s in before ensures |after[s]| == |before[s]| {
      assert MemLoadedFor(areas, v, done, s, before[s], after[s]);
    }
    forall s, x | s in before && 0 <= x < |before[s]|
      ensures WordOfImage(areas, phdrs, file, s, x, before[s][x], after[s][x])
    {
      assert MemLoadedFor(areas, v, done, s, before[s], after[s]);
      WidthsMatch(areas, before, s, x);
      WordIsLoaded(areas, nameToMem, addrToMem, phdrs, file, s, x, before[s], after[s][x]);
    }
  }

  lemma WidthsMatch(areas: seq<Area>, mems: map<string, seq<Word>>, s: string, x: nat)
    requires AllMatch(areas, mems) && s in mems && x < |mems[s]|
    ensures forall k | 0 <= k < |areas| && areas[k].mem.scope == s :: |mems[s][x]| == areas[k].mem.widthByte
  {
    forall k | 0 <= k < |areas| && areas[k].mem.scope == s ensures |mems[s][x]| == areas[k].mem.widthByte {
      assert Matches(areas[k].mem, mems);
    }
  }

  lemma ImageIsPartlyLoaded(areas: seq<Area>, nameToMem: map<string, nat>, addrToMem: seq<Entry<nat>>,
                            phdrs: seq<Phdr>, file: seq<Byte>,
                            before: map<string, seq<Word>>, after: map<string, seq<Word>>)
    requires RegistryValid(areas, nameToMem, addrToMem) && Accepted(areas, phdrs, |file|)
    requires AllMatch(areas, before) && Suits(areas, StageAll(areas, phdrs, file))
    requires PartlyLoaded(areas, StageAll(areas, phdrs, file), before, after)
    ensures ImagePartlyLoaded(areas, phdrs, file, before, after)
  {
    var v := StageAll(areas, phdrs, file);
    forall s | s in before ensures |after[s]| == |before[s]| {
      assert MemPartlyLoaded(areas, v, s, before[s], after[s]);
    }
    forall s, x | s in before && 0 <= x < |before[s]|
      ensures WordPartlyOfImage(areas, phdrs, file, s, x, before[s][x], after[s][x])
    {
      assert MemPartlyLoaded(areas, v, s, before[s], after[s]);
      WidthsMatch(areas, before, s, x);
      WordIsPartlyLoaded(areas, nameToMem, addrToMem, phdrs, file, s, x, before[s], after[s][x]);
    }
  }

  /** The simulation has every word that the image touches. */
  ghost predicate ImageFits(areas: seq<Area>, phdrs: seq<Phdr>, file: seq<Byte>, mems: map<string, seq<Word>>) {
    forall k, x: nat | 0 <= k < |areas| && ImageTouches(areas[k], phdrs, file, x) :: x < |Words(areas[k].mem, mems)|
  }

  /** The last word that a segment takes is touched, and every touched word is taken by a segment. */
  lemma FitsByWords(a: Area, es: seq<Segment>, phdrs: seq<Phdr>, file: seq<Byte>, mems: map<string, seq<Word>>)
    requires ValidArea(a) && StagedRight(a, es, phdrs, file)
    ensures SegmentsFit(a, es, mems) <==>
              forall x: nat | ImageTouches(a, phdrs, file, x) :: x < |Words(a.mem, mems)|
  {
    var width, size := a.mem.widthByte, |Words(a.mem, mems)|;
    if SegmentsFit(a, es, mems) {
      forall x: nat | ImageTouches(a, phdrs, file, x) ensures x < size {
        TouchesIsImage(a, es, phdrs, file, x);
        TouchedIsCovered(es, width, x);
        var k: nat :| k < |es| && es[k].rng.Has(x * width);
        WritesWord(es[k], width, x);
      }
    }
    if forall x: nat | ImageTouches(a, phdrs, file, x) :: x < size {
      forall k | 0 <= k < |es| ensures SegmentFits(a, es[k], mems) {
        LastWordTouched(a, es, phdrs, file, k);
      }
    }
  }

  lemma LastWordTouched(a: Area, es: seq<Segment>, phdrs: seq<Phdr>, file: seq<Byte>, k: nat)
    requires ValidArea(a) && StagedRight(a, es, phdrs, file) && k < |es|
    ensures var end := es[k].rng.lo / a.mem.widthByte + NumWords(|es[k].val|, a.mem.widthByte);
            end > 0 && ImageTouches(a, phdrs, file, end - 1)
  {
    var width := a.mem.widthByte;
    assert Fits(es[k]) && es[k].rng.lo % width == 0;
    WordsCover(|es[k].val|, width, 0);
    var last := es[k].rng.lo / width + NumWords(|es[k].val|, width) - 1;
    WritesWord(es[k], width, last);
    TouchedIsCovered(es, width, last);
    TouchesIsImage(a, es, phdrs, file, last);
  }

  /** What is staged fits the simulation exactly when the simulation has every word the image
      touches; with all memories connected it always has. */
  lemma ImageFitsStaged(areas: seq<Area>, nameToMem: map<string, nat>, addrToMem: seq<Entry<nat>>,
                        phdrs: seq<Phdr>, file: seq<Byte>, mems: map<string, seq<Word>>)
    requires RegistryValid(areas, nameToMem, addrToMem) && Accepted(areas, phdrs, |file|) && AllMatch(areas, mems)
    ensures StagedFits(areas, StageAll(areas, phdrs, file), mems) <==> ImageFits(areas, phdrs, file, mems)
    ensures AllConnected(areas, mems) ==> ImageFits(areas, phdrs, file, mems)
  {
    var v := StageAll(areas, phdrs, file);
    forall k | 0 <= k < |areas|
      ensures SegmentsFit(areas[k], Get(v, areas[k].name).segs, mems) <==>
                forall x: nat | ImageTouches(areas[k], phdrs, file, x) :: x < |Words(areas[k].mem, mems)|
      ensures Connected(areas[k].mem, mems) ==> SegmentsFit(areas[k], Get(v, areas[k].name).segs, mems)
    {
      var a, es := areas[k], Get(v, areas[k].name).segs;
      StagingIsImage(areas, nameToMem, addrToMem, phdrs, file, k);
      FitsByWords(a, es, phdrs, file, mems);
      forall i | 0 <= i < |es|
        ensures es[i].rng.lo / a.mem.widthByte + NumWords(|es[i].val|, a.mem.widthByte) <= a.mem.numWords
      {
        SegmentInMemory(a, es, i);
      }
    }
  }
}
