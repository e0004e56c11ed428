/** The DpiMemUtil object of dpi_memutil.cc: registration, staging and loading. */
module DpiMemUtil {
  import opened RangedMaps
  import opened StagedMemory
  import opened MemAreas
  import opened ElfStaging

  function Zip(mems: seq<MemArea>, bases: seq<nat>, names: seq<string>): (r: seq<Area>)
    requires |mems| == |bases| == |names|
    ensures |r| == |names|
  {
    seq(|names|, k requires 0 <= k < |names| => Area(mems[k], bases[k], names[k]))
  }

  /** A clash with this range is reported with the entry of area 0. */
  predicate ClashIsFirst(es: seq<Entry<nat>>, rng: Range) {
    exists k | 0 <= k < |es| :: Preferred(es, rng, k) && es[k].val == 0
  }

  lemma PreferredUnique(es: seq<Entry<nat>>, rng: Range)
    ensures forall j, k | 0 <= j < |es| && 0 <= k < |es| && Preferred(es, rng, j) && Preferred(es, rng, k) :: j == k
  {
  }

  lemma FirstAreaClashes(areas: seq<Area>, names: map<string, nat>, es: seq<Entry<nat>>, a: Area)
    requires RangesValid(areas, es)
    ensures AssertionFails(areas, names, a) <==> ValidArea(a) && a.name !in names && ClashIsFirst(es, a.Rng())
  {
    forall x | 0 <= x < |es| ensures Preferred(es, a.Rng(), x) <==> ClashesWith(areas, a, es[x].val) {
      ReportedArea(areas, es, a, x);
    }
    if ClashesWith(areas, a, 0) {
      var x := EntryOfArea(areas, es, 0);
      assert Preferred(es, a.Rng(), x);
    }
  }

  class MemUtil {
    var memAreas: seq<MemArea>
    var baseAddrs: seq<nat>
    var names: seq<string>
    var nameToMem: map<string, nat>
    const addrToMem: RangedMap<nat>
    var staging: Staging

    /** The three vectors, side by side. */
    function Areas(): (r: seq<Area>)
      requires |memAreas| == |baseAddrs| == |names|
      reads this`memAreas, this`baseAddrs, this`names
      ensures |r| == |names|
    {
      Zip(memAreas, baseAddrs, names)
    }

    /** The registry: what the maps and the vectors say agrees. */
    ghost predicate Valid()
      reads this, addrToMem
    {
      && |memAreas| == |baseAddrs| == |names|
      && RegistryValid(Areas(), nameToMem, addrToMem.entries)
    }

    constructor ()
      ensures Valid() && Areas() == [] && staging == map[] && fresh(addrToMem)
    {
      memAreas, baseAddrs, names, nameToMem, staging := [], [], [], map[], map[];
      addrToMem := new RangedMap();
    }

    /** Register a memory area, or refuse with nothing changed. The assertion on a clash, which stops
        the program where assertions are compiled in, holds unless the clash is with area 0. */
    method RegisterMemoryArea(name: string, base: nat, mem: MemArea) returns (r: Result<()>, assertHolds: bool)
      requires Valid() && mem.Valid() && base < U32
      modifies this`memAreas, this`baseAddrs, this`names, this`nameToMem, addrToMem
      ensures Valid()
      ensures var refusal := Refusal(old(Areas()), old(nameToMem), Area(mem, base, name));
              r == if refusal.Some? then Err(refusal.value) else Ok(())
      ensures Areas() == old(Areas()) + if r.Ok? then [Area(mem, base, name)] else []
      ensures r.Err? ==> nameToMem == old(nameToMem) && addrToMem.entries == old(addrToMem.entries)
      ensures !assertHolds <==> AssertionFails(old(Areas()), old(nameToMem), Area(mem, base, name))
    {
      ghost var areas, es, a := Areas(), addrToMem.entries, Area(mem, base, name);
      RegistryStep(areas, nameToMem, es, a);
      FirstAreaClashes(areas, nameToMem, es, a);
      r, assertHolds := UpdateRegistry(name, base, mem);
    }

    /** The checks and updates of a registration, in order: top address, name map, range map with
        the name taken back on a clash, and the three vectors. */
    method UpdateRegistry(name: string, base: nat, mem: MemArea) returns (r: Result<()>, assertHolds: bool)
      requires |memAreas| == |baseAddrs| == |names| && Disjoint(addrToMem.entries)
      requires mem.Valid() && base < U32
      modifies this`memAreas, this`baseAddrs, this`names, this`nameToMem, addrToMem
      ensures |memAreas| == |baseAddrs| == |names|
      ensures var a := Area(mem, base, name);
              && r == (if !ValidArea(a) then Err(AddressOverflow)
                       else if name in old(nameToMem) then Err(DuplicateName)
                       else if !Free(old(addrToMem.entries), a.Rng()) then Err(AreaOverlap)
                       else Ok(()))
              && Areas() == old(Areas()) + (if r.Ok? then [a] else [])
              && nameToMem == (if r.Ok? then old(nameToMem)[name := |old(names)|] else old(nameToMem))
              && addrToMem.entries == (if r.Ok? then Inserted(old(addrToMem.entries), Entry(a.Rng(), |old(names)|))
                                       else old(addrToMem.entries))
      ensures var a := Area(mem, base, name);
              !assertHolds <==> ValidArea(a) && name !in old(nameToMem) && ClashIsFirst(old(addrToMem.entries), a.Rng())
    {
      assertHolds := true;
      var size := mem.SizeBytes();
      var addrTop := Add32(base, TopOf(size));
      if addrTop < base {
        return Err(AddressOverflow), true;
      }
      var newIdx := |memAreas|;
      if name in nameToMem {
        return Err(DuplicateName), true;
      }
      nameToMem := nameToMem[name := newIdx];
      var clash := addrToMem.EmplaceDisjoint(base, addrTop, newIdx);
      if clash.Some? {
        assertHolds := clash.value != 0;
        PreferredUnique(addrToMem.entries, Range(base, addrTop));
        nameToMem := nameToMem - {name};
        assert nameToMem == old(nameToMem);
        return Err(AreaOverlap), assertHolds;
      }
      PushBack(name, base, mem);
      return Ok(()), true;
    }

    /** Append to the three vectors. */
    method PushBack(name: string, base: nat, mem: MemArea)
      requires |memAreas| == |baseAddrs| == |names|
      modifies this`memAreas, this`baseAddrs, this`names
      ensures |memAreas| == |baseAddrs| == |names|
      ensures Areas() == old(Areas()) + [Area(mem, base, name)]
    {
      ghost var areas := Areas();
      memAreas := memAreas + [mem];
      baseAddrs := baseAddrs + [base];
      names := names + [name];
      assert Areas() == areas + [Area(mem, base, name)];
    }

    /** The index of the area that holds the whole segment, or why there is none. */
    method GetRegionForSegment(p: Phdr) returns (r: Result<nat>)
      requires Valid() && ValidPhdr(p) && p.filesz > 0
      ensures r == Region(Areas(), p)
    {
      FindMeansRegion(Areas(), addrToMem.entries, p.paddr);
      r := CheckRegion(p);
    }

    /** Look the first address up in the range map and check the segment against the area found. */
    method CheckRegion(p: Phdr) returns (r: Result<nat>)
      requires |memAreas| == |baseAddrs| == |names| && Disjoint(addrToMem.entries)
      requires forall e | e in addrToMem.entries :: e.val < |names| && baseAddrs[e.val] == e.rng.lo
      requires ValidPhdr(p) && p.filesz > 0
      ensures var es := addrToMem.entries;
              || (r == Err(NoRegion) && forall k | 0 <= k < |es| :: !Holds(es, k, p.paddr))
              || exists k | 0 <= k < |es| ::
                   Holds(es, k, p.paddr) && es[k].val < |Areas()| && r == RegionIn(Areas(), es[k].val, p)
    {
      var it := addrToMem.Find(p.paddr);
      if it.None? {
        return Err(NoRegion);
      }
      var e := addrToMem.entries[it.value];
      assert e in addrToMem.entries;
      var idx := e.val;
      assert baseAddrs[idx] <= p.paddr;
      var lmaTop := Add32(p.paddr, p.filesz - 1);
      if lmaTop < p.paddr {
        return Err(SegmentOverflow);
      }
      if memAreas[idx].SizeBytes() <= lmaTop - baseAddrs[idx] {
        return Err(SegmentTooLong);
      }
      return Ok(idx);
    }

    /** Load the image's segments into the staging area, up to the first header with an error. */
    method StageElf(phdrs: seq<Phdr>, file: seq<Byte>) returns (r: Result<()>)
      requires Valid() && forall i | 0 <= i < |phdrs| :: ValidPhdr(phdrs[i])
      modifies this`staging
      ensures var error := ImageError(Areas(), phdrs, |file|);
              r == if error.Some? then Err(error.value) else Ok(())
      ensures r.Ok? ==> staging == StageAll(Areas(), phdrs, file)
      ensures r.Err? ==> exists k | 0 <= k < |phdrs| :: StoppedAt(Areas(), phdrs, file, k, staging)
    {
      staging := map[];
      for i := 0 to |phdrs|
        invariant ImageError(Areas(), phdrs[..i], |file|).None?
        invariant staging == StageAll(Areas(), phdrs[..i], file)
      {
        assert phdrs[..i + 1][..i] == phdrs[..i];
        var p := phdrs[i];
        if !Loads(p) {
          continue;
        }
        r := StagePhdr(p, file);
        if r.Err? {
          ErrorStays(Areas(), phdrs, i + 1, |file|);
          assert StoppedAt(Areas(), phdrs, file, i, staging);
          return;
        }
      }
      assert phdrs[..|phdrs|] == phdrs;
      return Ok(());
    }

    /** The checks and the staging of one header that contributes bytes. */
    method StagePhdr(p: Phdr, file: seq<Byte>) returns (r: Result<()>)
      requires Valid() && ValidPhdr(p) && Loads(p)
      modifies this`staging
      ensures var error := PhdrError(Areas(), p, |file|);
              r == if error.Some? then Err(error.value) else Ok(())
      ensures staging == if r.Ok? then StageOne(Areas(), old(staging), p, file) else old(staging)
    {
      var region := GetRegionForSegment(p);
      r := StageInRegion(region, p, file);
    }

    /** The remaining checks, and the staging of the segment for the area found. */
    method StageInRegion(region: Result<nat>, p: Phdr, file: seq<Byte>) returns (r: Result<()>)
      requires |memAreas| == |baseAddrs| == |names| && Loads(p) && region == Region(Areas(), p)
      requires region.Ok? ==> Areas()[region.value].mem.widthByte > 0
      modifies this`staging
      ensures var error := PhdrError(Areas(), p, |file|);
              r == if error.Some? then Err(error.value) else Ok(())
      ensures staging == if r.Ok? then StageOne(Areas(), old(staging), p, file) else old(staging)
    {
      if region.Err? {
        return Err(region.error);
      }
      var idx := region.value;
      ghost var areas, a := Areas(), Areas()[idx];
      assert a == Area(memAreas[idx], baseAddrs[idx], names[idx]);
      assert PhdrError(areas, p, |file|) == ErrorIn(a, p, |file|);
      var localBase := p.paddr - baseAddrs[idx];
      if localBase % memAreas[idx].widthByte != 0 {
        return Err(Misaligned);
      }
      if |file| < p.offset + p.filesz {
        return Err(BeyondFile);
      }
      assert ErrorIn(a, p, |file|) == None;
      PassedChecks(areas, p, file, staging);
      var st := Added(Get(staging, names[idx]), localBase, file[p.offset..p.offset + p.filesz]);
      staging := staging[names[idx] := st];
      return Ok(());
    }

    /** Stage the image, then write every staged segment to its memory. An error in staging leaves all
        memories as they are; the load is refused exactly when the image touches a word that the
        simulation does not have, and then each word is as before or loaded. */
    method LoadElfToMemories(sim: Simulation, phdrs: seq<Phdr>, file: seq<Byte>) returns (r: Result<()>)
      requires Valid() && forall i | 0 <= i < |phdrs| :: ValidPhdr(phdrs[i])
      requires AllMatch(Areas(), sim.mems)
      modifies this`staging, sim
      ensures var error := ImageError(Areas(), phdrs, |file|);
              if error.Some? then r == Err(error.value) && sim.mems == old(sim.mems)
              else if r.Ok? then
                && ImageFits(Areas(), phdrs, file, old(sim.mems))
                && ImageLoaded(Areas(), phdrs, file, old(sim.mems), sim.mems)
              else
                && r.error.WriteFailed? && !ImageFits(Areas(), phdrs, file, old(sim.mems))
                && ImagePartlyLoaded(Areas(), phdrs, file, old(sim.mems), sim.mems)
      ensures ImageError(Areas(), phdrs, |file|).None? && AllConnected(Areas(), old(sim.mems)) ==> r.Ok?
    {
      r := StageElf(phdrs, file);
      if r.Err? {
        return;
      }
      ImageAccepted(Areas(), addrToMem.entries, phdrs, |file|);
      StagedIsRegistered(Areas(), nameToMem, addrToMem.entries, phdrs, file);
      ImageFitsStaged(Areas(), nameToMem, addrToMem.entries, phdrs, file, sim.mems);
      ghost var before := sim.mems;
      var outcome := WriteStaged(sim);
      if outcome.Done? {
        ImageIsLoaded(Areas(), nameToMem, addrToMem.entries, phdrs, file, before, sim.mems);
      } else {
        ImageIsPartlyLoaded(Areas(), nameToMem, addrToMem.entries, phdrs, file, before, sim.mems);
        r := Err(WriteFailed(outcome));
      }
    }

    /** Write what is staged, in the order of the staging map's names, up to the first refusal. */
    method WriteStaged(sim: Simulation) returns (r: Outcome)
      requires |memAreas| == |baseAddrs| == |names|
      requires StagingRegistered(Areas(), nameToMem, staging) && NamesUnique(Areas())
      requires AllMatch(Areas(), sim.mems)
      modifies sim
      ensures Suits(Areas(), staging)
      ensures r.Done? <==> StagedFits(Areas(), staging, old(sim.mems))
      ensures r.Done? ==>
                LoadedFor(Areas(), staging, set a | a in Areas() :: a.name, old(sim.mems), sim.mems)
      ensures !r.Done? ==> PartlyLoaded(Areas(), staging, old(sim.mems), sim.mems)
    {
      ghost var before, areas := sim.mems, Areas();
      var todo := staging.Keys;
      RegisteredSuits(areas, nameToMem, staging);
      NothingYet(areas, staging, before);
      while todo != {}
        invariant Loading(areas, staging, todo, before, sim.mems)
        decreases todo
      {
        r, todo := WriteNext(sim, todo, before);
        if !r.Done? {
          return;
        }
      }
      r := Done;
      AllLoaded(areas, staging, before, sim.mems);
    }

    /** One turn of the loop: the first of the names that are left. */
    method WriteNext(sim: Simulation, todo: set<string>, ghost before: map<string, seq<Word>>)
      returns (r: Outcome, rest: set<string>)
      requires |memAreas| == |baseAddrs| == |names| && todo != {}
      requires StagingRegistered(Areas(), nameToMem, staging) && NamesUnique(Areas())
      requires Loading(Areas(), staging, todo, before, sim.mems)
      modifies sim
      ensures rest < todo
      ensures r.Done? ==> Loading(Areas(), staging, rest, before, sim.mems)
      ensures !r.Done? ==> AllMatch(Areas(), before) && Suits(Areas(), staging)
                           && PartlyLoaded(Areas(), staging, before, sim.mems)
                           && !StagedFits(Areas(), staging, before)
    {
      ghost var first := FirstName(todo);
      var name :| name in todo && IsFirst(name, todo);
      rest := todo - {name};
      ghost var mid := sim.mems;
      r := WriteMemory(sim, name);
      OneMore(Areas(), staging, todo, nameToMem[name], before, mid, sim.mems, r);
    }

    /** Write what is staged for one name to its memory. */
    method WriteMemory(sim: Simulation, name: string) returns (r: Outcome)
      requires |memAreas| == |baseAddrs| == |names| && name in staging
      requires StagingRegistered(Areas(), nameToMem, staging) && AllMatch(Areas(), sim.mems)
      modifies sim
      ensures name in nameToMem && nameToMem[name] < |names| && Areas()[nameToMem[name]].name == name
      ensures AllMatch(Areas(), old(sim.mems)) && AllMatch(Areas(), sim.mems)
      ensures var a := Areas()[nameToMem[name]];
              && (r.Done? <==> SegmentsFit(a, staging[name].segs, old(sim.mems)))
              && WrittenPartly(a.mem, old(sim.mems), sim.mems, LoadedMem(a, staging, Words(a.mem, old(sim.mems))), r)
    {
      var idx := nameToMem[name];
      assert StagedAt(Areas(), idx, name, staging[name].segs);
      ghost var before := sim.mems;
      var a := Areas()[idx];
      r := LoadStaged(sim, a, staging[name].segs);
      StillMatching(Areas(), before, Words(a.mem, sim.mems), idx);
    }

    /** Write the staged segments of one memory, up to the first that is refused. */
    method LoadStaged(sim: Simulation, a: Area, segs: seq<Segment>) returns (r: Outcome)
      requires Matches(a.mem, sim.mems) && ShapeRight(a, segs)
      modifies sim
      ensures Matches(a.mem, sim.mems)
      ensures r.Done? <==> SegmentsFit(a, segs, old(sim.mems))
      ensures WrittenPartly(a.mem, old(sim.mems), sim.mems,
                            WriteAll(Words(a.mem, old(sim.mems)), segs, a.mem.widthByte, |segs|), r)
    {
      ghost var before, mem := sim.mems, Words(a.mem, sim.mems);
      r := Done;
      for i := 0 to |segs|
        invariant r == Done && Matches(a.mem, sim.mems)
        invariant sim.mems == Put(before, a.mem.scope, WriteAll(mem, segs, a.mem.widthByte, i))
        invariant forall k | 0 <= k < i :: SegmentFits(a, segs[k], before)
      {
        r := LoadSegment(sim, a, segs, i, before);
        if !r.Done? {
          return;
        }
      }
    }

    /** One turn of the loop. */
    method LoadSegment(sim: Simulation, a: Area, segs: seq<Segment>, i: nat, ghost before: map<string, seq<Word>>)
      returns (r: Outcome)
      requires Matches(a.mem, before) && ShapeRight(a, segs) && i < |segs| && Matches(a.mem, sim.mems)
      requires sim.mems == Put(before, a.mem.scope, WriteAll(Words(a.mem, before), segs, a.mem.widthByte, i))
      modifies sim
      ensures Matches(a.mem, sim.mems) && (r.Done? <==> SegmentFits(a, segs[i], before))
      ensures r.Done? ==>
                sim.mems == Put(before, a.mem.scope, WriteAll(Words(a.mem, before), segs, a.mem.widthByte, i + 1))
      ensures !r.Done? ==>
                WrittenPartly(a.mem, before, sim.mems,
                              WriteAll(Words(a.mem, before), segs, a.mem.widthByte, |segs|), r)
    {
      ghost var mem := Words(a.mem, before);
      var seg := segs[i];
      assert seg.rng.lo % a.mem.widthByte == 0;
      var loWord := seg.rng.lo / a.mem.widthByte;
      SegmentInMemory(a, segs, i);
      r := Write(sim, a.mem, loWord, seg.val);
      ghost var t := Taken(|mem|, loWord, NumWords(|seg.val|, a.mem.widthByte));
      assert Words(a.mem, sim.mems) == StoppedWrite(mem, segs, a.mem.widthByte, i, t);
      if !r.Done? {
        StoppedIsPartly(mem, segs, a.mem.widthByte, i, t);
      }
    }
  }

  /** A write to one memory changes no other; each of its words is as before or as in full, and as in
      full when the write is done. */
  predicate WrittenPartly(m: MemArea, before: map<string, seq<Word>>, after: map<string, seq<Word>>,
                          full: seq<Word>, r: Outcome) {
    && after == Put(before, m.scope, Words(m, after))
    && Partly(Words(m, before), full, Words(m, after))
    && (r.Done? ==> Words(m, after) == full)
  }

  predicate SameSizes(before: map<string, seq<Word>>, after: map<string, seq<Word>>) {
    before.Keys == after.Keys && forall s | s in before :: |after[s]| == |before[s]|
  }

  /** What is staged under these names fits the simulation. */
  predicate FitsFor(areas: seq<Area>, staging: Staging, done: set<string>, mems: map<string, seq<Word>>)
    requires AllMatch(areas, mems)
  {
    forall k | 0 <= k < |areas| && areas[k].name in done ::
      SegmentsFit(areas[k], Get(staging, areas[k].name).segs, mems)
  }

  /** The names that are done come before those that are left. */
  predicate InOrder(done: set<string>, todo: set<string>) {
    forall n, m | n in done && m in todo :: Less(n, m)
  }

  /** The state of a load between two memories. */
  predicate LoadedSoFar(areas: seq<Area>, staging: Staging, done: set<string>,
                        before: map<string, seq<Word>>, now: map<string, seq<Word>>) {
    && AllMatch(areas, before) && AllMatch(areas, now) && SameSizes(before, now) && Suits(areas, staging)
    && LoadedFor(areas, staging, done, before, now) && FitsFor(areas, staging, done, before)
  }

  /** With these names left, all others are loaded, and come first. */
  predicate Loading(areas: seq<Area>, staging: Staging, todo: set<string>,
                    before: map<string, seq<Word>>, now: map<string, seq<Word>>) {
    && todo <= staging.Keys && InOrder(staging.Keys - todo, todo)
    && LoadedSoFar(areas, staging, staging.Keys - todo, before, now)
  }

  lemma NothingYet(areas: seq<Area>, staging: Staging, before: map<string, seq<Word>>)
    requires AllMatch(areas, before) && Suits(areas, staging)
    ensures Loading(areas, staging, staging.Keys, before, before)
  {
  }

  /** Whether segments fit depends on the sizes of the memories only. */
  lemma SizesDecide(a: Area, es: seq<Segment>, before: map<string, seq<Word>>, mid: map<string, seq<Word>>)
    requires a.mem.Valid() && SameSizes(before, mid)
    ensures SegmentsFit(a, es, before) <==> SegmentsFit(a, es, mid)
  {
    assert |Words(a.mem, before)| == |Words(a.mem, mid)|;
  }

  /** One name less to do, or the load ends here. */
  lemma OneMore(areas: seq<Area>, staging: Staging, todo: set<string>, k: nat, before: map<string, seq<Word>>,
                mid: map<string, seq<Word>>, after: map<string, seq<Word>>, r: Outcome)
    requires NamesUnique(areas) && k < |areas| && IsFirst(areas[k].name, todo)
    requires Loading(areas, staging, todo, before, mid) && AllMatch(areas, after)
    requires WrittenPartly(areas[k].mem, mid, after, LoadedMem(areas[k], staging, Words(areas[k].mem, mid)), r)
    requires r.Done? <==> SegmentsFit(areas[k], Get(staging, areas[k].name).segs, mid)
    ensures r.Done? ==> Loading(areas, staging, todo - {areas[k].name}, before, after)
    ensures !r.Done? ==> PartlyLoaded(areas, staging, before, after) && !StagedFits(areas, staging, before)
  {
    SizesDecide(areas[k], Get(staging, areas[k].name).segs, before, mid);
    if r.Done? {
      LoadedOneMore(areas, staging, todo, k, before, mid);
      FitsOneMore(areas, staging, todo, k, before);
    } else {
      PartStep(areas, staging, staging.Keys - todo, k, before, mid, Words(areas[k].mem, after));
    }
  }

  lemma FitsOneMore(areas: seq<Area>, staging: Staging, todo: set<string>, k: nat, mems: map<string, seq<Word>>)
    requires AllMatch(areas, mems) && NamesUnique(areas) && k < |areas|
    requires FitsFor(areas, staging, staging.Keys - todo, mems)
    requires SegmentsFit(areas[k], Get(staging, areas[k].name).segs, mems)
    ensures FitsFor(areas, staging, staging.Keys - (todo - {areas[k].name}), mems)
  {
    forall i | 0 <= i < |areas| && areas[i].name in staging.Keys - (todo - {areas[k].name})
      ensures SegmentsFit(areas[i], Get(staging, areas[i].name).segs, mems)
    {
      if i != k { OtherName(areas, i, k); }
    }
  }

  /** With nothing left to do everything is loaded, and fits. */
  lemma AllLoaded(areas: seq<Area>, staging: Staging, before: map<string, seq<Word>>, after: map<string, seq<Word>>)
    requires Loading(areas, staging, {}, before, after)
    ensures LoadedFor(areas, staging, set a | a in areas :: a.name, before, after) && StagedFits(areas, staging, before)
  {
    assert staging.Keys - {} == staging.Keys;
    NothingElseStaged(areas, staging, before, after);
  }

  /** Staging stopped at header k, with all headers before it staged. */
  predicate StoppedAt(areas: seq<Area>, phdrs: seq<Phdr>, file: seq<Byte>, k: nat, staging: Staging)
    requires k < |phdrs|
  {
    && ImageError(areas, phdrs[..k], |file|).None? && PhdrError(areas, phdrs[k], |file|).Some?
    && staging == StageAll(areas, phdrs[..k], file)
  }

  /** One name less to do. */
  lemma LoadedOneMore(areas: seq<Area>, staging: Staging, todo: set<string>, k: nat,
                      before: map<string, seq<Word>>, mid: map<string, seq<Word>>)
    requires AllMatch(areas, before) && AllMatch(areas, mid) && Suits(areas, staging) && k < |areas|
    requires NamesUnique(areas) && areas[k].name in todo && InOrder(staging.Keys - todo, todo)
    requires LoadedFor(areas, staging, staging.Keys - todo, before, mid) && todo <= staging.Keys
    ensures LoadedFor(areas, staging, staging.Keys - (todo - {areas[k].name}), before,
                      Put(mid, areas[k].mem.scope, LoadedMem(areas[k], staging, Words(areas[k].mem, mid))))
  {
    LoadedStep(areas, staging, staging.Keys - todo, k, before, mid);
    assert staging.Keys - (todo - {areas[k].name}) == staging.Keys - todo + {areas[k].name};
  }

  /** Writing one memory leaves the words of all memories as wide as their handles say. */
  lemma StillMatching(areas: seq<Area>, before: map<string, seq<Word>>, words: seq<Word>, k: nat)
    requires AllMatch(areas, before) && k < |areas| && |words| == |Words(areas[k].mem, before)|
    requires Matches(areas[k].mem, Put(before, areas[k].mem.scope, words))
    ensures AllMatch(areas, Put(before, areas[k].mem.scope, words))
  {
    forall i | 0 <= i < |areas| ensures Matches(areas[i].mem, Put(before, areas[k].mem.scope, words)) {
      SameScope(areas[i].mem, areas[k].mem, before, words);
    }
  }

  lemma SameScope(m: MemArea, n: MemArea, before: map<string, seq<Word>>, words: seq<Word>)
    requires Matches(m, before) && Matches(n, before) && |words| == |Words(n, before)|
    requires Matches(n, Put(before, n.scope, words))
    ensures Matches(m, Put(before, n.scope, words))
  {
    if m.scope == n.scope && n.scope in before && words != [] {
      assert |before[n.scope][0]| == m.widthByte == n.widthByte;
    }
  }

  /** Memories with nothing staged count as loaded. */
  lemma NothingElseStaged(areas: seq<Area>, staging: Staging,
                          before: map<string, seq<Word>>, after: map<string, seq<Word>>)
    requires AllMatch(areas, before) && Suits(areas, staging) && LoadedFor(areas, staging, staging.Keys, before, after)
    ensures LoadedFor(areas, staging, set a | a in areas :: a.name, before, after)
  {
    var all := set a | a in areas :: a.name;
    forall s | s in before ensures MemLoadedFor(areas, staging, all, s, before[s], after[s]) {
      assert MemLoadedFor(areas, staging, staging.Keys, s, before[s], after[s]);
      forall x | 0 <= x < |before[s]| ensures WordLoadedFor(areas, staging, all, s, x, before[s], after[s][x]) {
        AllNames(areas, staging, all, s, x, before[s], after[s][x]);
      }
    }
  }

  lemma AllNames(areas: seq<Area>, staging: Staging, all: set<string>, s: string, x: nat, mem: seq<Word>, w: Word)
    requires Suits(areas, staging) && x < |mem| && forall k | 0 <= k < |areas| :: areas[k].mem.Valid()
    requires all == (set a | a in areas :: a.name) && WordLoadedFor(areas, staging, staging.Keys, s, x, mem, w)
    ensures WordLoadedFor(areas, staging, all, s, x, mem, w)
  {
    forall k | 0 <= k < |areas| && Touches(areas, staging, s, x, k)
      ensures areas[k].name in staging && areas[k].name in all
    {
      assert areas[k] in areas;
    }
    if !NoneTouches(areas, staging, staging.Keys, s, x) {
      var k :| 0 <= k < |areas| && LastToTouch(areas, staging, staging.Keys, s, x, k)
               && w == LoadedMem(areas[k], staging, mem)[x];
      assert LastToTouch(areas, staging, all, s, x, k);
    }
  }

  /** An error at some header is the error of the whole image. */
  lemma {:induction false} ErrorStays(areas: seq<Area>, phdrs: seq<Phdr>, i: nat, fileSize: nat)
    requires i <= |phdrs| && ImageError(areas, phdrs[..i], fileSize).Some?
    ensures ImageError(areas, phdrs, fileSize) == ImageError(areas, phdrs[..i], fileSize)
    decreases |phdrs|
  {
    if i == |phdrs| {
      assert phdrs[..i] == phdrs;
    } else {
      assert phdrs[..|phdrs| - 1][..i] == phdrs[..i];
      ErrorStays(areas, phdrs[..|phdrs| - 1], i, fileSize);
    }
  }

  /** Finding an address in the range map is finding the area it lies in. */
  lemma FindMeansRegion(areas: seq<Area>, addrToMem: seq<Entry<nat>>, a: nat)
    requires RangesValid(areas, addrToMem)
    ensures (forall k | 0 <= k < |addrToMem| :: !Holds(addrToMem, k, a)) ==> RegionOf(areas, a) == |areas|
    ensures forall k | 0 <= k < |addrToMem| && Holds(addrToMem, k, a) :: addrToMem[k].val == RegionOf(areas, a)
    ensures forall e | e in addrToMem :: e.val < |areas| && areas[e.val].base == e.rng.lo
  {
    if forall k | 0 <= k < |addrToMem| :: !Holds(addrToMem, k, a) { NoAreaHolds(areas, addrToMem, a); }
    forall k | 0 <= k < |addrToMem| && Holds(addrToMem, k, a)
      ensures addrToMem[k].val == RegionOf(areas, a)
    {
      AreaByEntry(areas, addrToMem, k, a);
    }
  }

  /** An address held by no entry lies in no area. */
  lemma NoAreaHolds(areas: seq<Area>, addrToMem: seq<Entry<nat>>, a: nat)
    requires RangesValid(areas, addrToMem)
    requires forall k | 0 <= k < |addrToMem| :: !Holds(addrToMem, k, a)
    ensures RegionOf(areas, a) == |areas|
  {
    var j := RegionOf(areas, a);
    if j < |areas| {
      var e := Entry(areas[j].Rng(), j);
      assert e in addrToMem;
      var k :| 0 <= k < |addrToMem| && addrToMem[k] == e;
      assert Holds(addrToMem, k, a);
      assert false;
    }
  }

  /** The entry that holds an address leads to the area the address lies in. */
  lemma AreaByEntry(areas: seq<Area>, addrToMem: seq<Entry<nat>>, it: nat, a: nat)
    requires RangesValid(areas, addrToMem) && Holds(addrToMem, it, a)
    ensures addrToMem[it].val < |areas| && RegionOf(areas, a) == addrToMem[it].val
  {
    var k := addrToMem[it].val;
    assert addrToMem[it] in addrToMem;
    AreaUnique(areas, addrToMem, RegionOf(areas, a), k, a);
  }
}
