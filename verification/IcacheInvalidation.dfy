/** Invalidation: a lookup only ever sees lines fetched since the latest invalidation request. */
module IcacheInvalidation {
  import opened IcacheTypes
  import opened Icache
  import FB = FillBuffers

  predicate AllInvalid(c: Cfg, s: State, below: nat)
    requires Shape(c, s)
  {
    forall w, k | 0 <= w < c.ways && 0 <= k < c.sets && k < below :: s.tags[w][k].Invalid?
  }

  /** All valid tags were written by buffers allocated in the current epoch. */
  predicate AllFresh(c: Cfg, s: State)
    requires Shape(c, s)
  {
    forall w, k | 0 <= w < c.ways && 0 <= k < c.sets ::
      s.tags[w][k].Valid? ==> s.tags[w][k].epoch == s.epoch
  }

  predicate BuffersFresh(c: Cfg, s: State)
    requires Shape(c, s)
  {
    forall f | 0 <= f < c.numFb && s.bufs.fb[f].busy && s.bufs.fb[f].cache ::
      s.inval == Idle && s.bufs.fb[f].epoch == s.epoch
  }

  /** The in-flight lookup was granted in IDLE and read fresh tags only. */
  predicate LookupFresh(c: Cfg, s: State)
    requires Shape(c, s)
  {
    s.bufs.lookupValid ==>
      s.inval == Idle && forall w | 0 <= w < c.ways ::
        s.rdTags[w].Valid? ==> s.rdTags[w].epoch == s.epoch
  }

  predicate InvalInv(c: Cfg, s: State) {
    && Shape(c, s)
    && (s.inval == Idle ==> AllFresh(c, s))
    && (s.inval == InvalCache ==> AllInvalid(c, s, s.invalIndex))
    && BuffersFresh(c, s)
    && LookupFresh(c, s)
    && (s.eccWrite ==> s.inval == Idle || s.inval == AwaitScrambleKey)
  }

  /** An ECC correction write never takes the place of an invalidation write. */
  lemma CorrectionNeverMeetsInvalidation(c: Cfg, s: State)
    requires InvalInv(c, s)
    ensures !(s.eccWrite && InvalWrite(s))
  {
  }

  /** A line is written to the cache only in IDLE and only by a buffer of the current epoch. */
  lemma FillsAreFresh(c: Cfg, s: State, i: In)
    requires InvalInv(c, s) && FillGrant(c, s, i)
    ensures var f := RamWinner(c, s, i);
            f < c.numFb ==> s.inval == Idle && s.bufs.fb[f].epoch == s.epoch
  {
    var f := RamWinner(c, s, i);
    if f < c.numFb { assert f in FB.RamReq(c, s.bufs); }
  }

  lemma TagsAfter(c: Cfg, s: State, i: In, w: nat, k: nat)
    requires InvalInv(c, s) && LegalIn(c, s, i) && w < c.ways && k < c.sets
    ensures var t := Next(c, s, i);
            && (InvalWrite(s) && k == s.invalIndex ==> t.tags[w][k].Invalid?)
            && (t.tags[w][k] == s.tags[w][k] || t.tags[w][k].Invalid?
                || (FillGrant(c, s, i) && RamWinner(c, s, i) < c.numFb
                    && t.tags[w][k].Valid?
                    && t.tags[w][k].epoch == s.bufs.fb[RamWinner(c, s, i)].epoch))
  {
    CorrectionNeverMeetsInvalidation(c, s);
  }

  lemma AllInvalidKept(c: Cfg, s: State, i: In)
    requires InvalInv(c, s) && LegalIn(c, s, i) && s.inval == InvalCache
    ensures AllInvalid(c, Next(c, s, i), s.invalIndex + 1)
  {
    NextShape(c, s, i);
    var t := Next(c, s, i);
    forall w, k | 0 <= w < c.ways && 0 <= k < c.sets && k < s.invalIndex + 1
      ensures t.tags[w][k].Invalid?
    {
      TagsAfter(c, s, i, w, k);
    }
  }

  /** Whenever the invalidation FSM enters IDLE, every tag in every way is invalid. */
  lemma IdleEnteredAllInvalid(c: Cfg, s: State, i: In)
    requires InvalInv(c, s) && LegalIn(c, s, i)
    requires s.inval != Idle && Next(c, s, i).inval == Idle
    ensures Shape(c, Next(c, s, i)) && AllInvalid(c, Next(c, s, i), c.sets)
  {
    AllInvalidKept(c, s, i);
  }

  /** A lookup granted in the cycle of an invalidation request, or later, can only hit lines
      whose fill buffer was allocated after the request. */
  lemma LookupSeesOnlyFreshLines(c: Cfg, s: State, i: In)
    requires InvalInv(c, s) && LegalIn(c, s, i) && LookupActual(c, s, i)
    ensures !i.inval && AllFresh(c, s)
    ensures Shape(c, Next(c, s, i)) && LookupFresh(c, Next(c, s, i))
  {
    NextShape(c, s, i);
  }

  lemma BuffersFreshKept(c: Cfg, s: State, i: In)
    requires InvalInv(c, s) && LegalIn(c, s, i)
    ensures Shape(c, Next(c, s, i)) && BuffersFresh(c, Next(c, s, i))
  {
    NextShape(c, s, i);
    var t := Next(c, s, i);
    var x := FbIn(c, s, i);
    forall f | 0 <= f < c.numFb && t.bufs.fb[f].busy && t.bufs.fb[f].cache
      ensures t.inval == Idle && t.bufs.fb[f].epoch == t.epoch
    {
      assert t.bufs.fb[f] == FB.NextBuf(c, s.bufs, x, f);
    }
  }

  lemma AllFreshKept(c: Cfg, s: State, i: In)
    requires InvalInv(c, s) && LegalIn(c, s, i) && Next(c, s, i).inval == Idle
    ensures Shape(c, Next(c, s, i)) && AllFresh(c, Next(c, s, i))
  {
    NextShape(c, s, i);
    if s.inval != Idle {
      IdleEnteredAllInvalid(c, s, i);
    } else {
      var t := Next(c, s, i);
      forall w, k | 0 <= w < c.ways && 0 <= k < c.sets && t.tags[w][k].Valid?
        ensures t.tags[w][k].epoch == t.epoch
      {
        TagsAfter(c, s, i, w, k);
        if FillGrant(c, s, i) { FillsAreFresh(c, s, i); }
      }
    }
  }

  /** Every clock edge keeps the invalidation invariant. */
  lemma InvalInvKept(c: Cfg, s: State, i: In)
    requires InvalInv(c, s) && LegalIn(c, s, i)
    ensures InvalInv(c, Next(c, s, i))
  {
    NextShape(c, s, i);
    BuffersFreshKept(c, s, i);
    if Next(c, s, i).inval == Idle { AllFreshKept(c, s, i); }
    if s.inval == InvalCache { AllInvalidKept(c, s, i); }
    if LookupActual(c, s, i) { LookupSeesOnlyFreshLines(c, s, i); }
  }
}
