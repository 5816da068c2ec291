/** A virtual memory context as the object the kernel updates: vm_space_alloc, vm_space_free
    and vm_change_attr step by step (mm/vm_space.c, mm/vm.c), each proved to compute the
    state function of the same name, and what changing attributes does to the two maps. */
module VmContexts {
  import opened Extents
  import opened ExtentLists
  import opened VmSpace

  // ---------------------------------------------------------------- vm_change_attr

  /** The protection vm_change_attr asks for. */
  function NewProt(current: Bits, set_: Bits, clear: Bits): Bits {
    (current - clear) * (current + set_)
  }

  lemma NewProtNeverSets(current: Bits, set_: Bits, clear: Bits)
    ensures NewProt(current, set_, clear) == current - clear
  {
  }

  /** vm_change_attr clears bits but never sets one: it gives the protection with set_ added
      exactly when set_ brings nothing that is not there already or cleared at once. */
  lemma NewProtAsAskedIff(current: Bits, set_: Bits, clear: Bits)
    ensures NewProt(current, set_, clear) == (current + set_) - clear <==> set_ <= current + clear
  {
    if NewProt(current, set_, clear) == (current + set_) - clear {
      forall b | b in set_ ensures b in current + clear {
        assert b in NewProt(current, set_, clear) <==> b in (current + set_) - clear;
      }
    }
  }

  /** Changed: VM_OK with the old protection. Failed: VM_FAIL. Stuck: an endless loop, or an
      address space left at a point the model does not follow. */
  datatype AttrOutcome = Changed(old_: Bits) | Failed | Stuck

  /** The state after vm_change_attr; pagesOk is the answer of the page manager. When it refuses,
      the rollback overwrites that answer with the status of its own vm_space_free, so that the
      call ends with VM_OK. */
  function AttrChanged(s: Space, ctxFlags: u32, addr: u64, len: u64, set_: Bits, clear: Bits, pagesOk: bool)
    : (Space, AttrOutcome)
  {
    if addr % 0x1000 != 0 || len % 0x1000 != 0 then (s, Failed)
    else
      var (s1, freed) := Freed(s, addr, len);
      if freed.Refused? then (s1, Failed)
      else if !freed.Done? then (s1, Stuck)
      else
        var (s2, placed) := Allocated(s1, ctxFlags, addr, len, freed.flags, NewProt(freed.prot, set_, clear));
        if !placed.Placed? then
          if placed.Refused? then
            var (s3, again) := Allocated(s2, ctxFlags, addr, len, freed.flags, freed.prot);
            (s3, if again.Refused? then Failed else Stuck)
          else (s2, Stuck)
        else if pagesOk then (s2, Changed(freed.prot))
        else
          var (s3, undone) := Freed(s2, addr, len);
          if !undone.Done? then (s3, Stuck)
          else
            var (s4, restored) := Allocated(s3, ctxFlags, addr, len, freed.flags, freed.prot);
            (s4, if restored.Placed? || restored.Refused? then Changed(freed.prot) else Stuck)
  }

  /** Some allocated extent that is not locked holds all of [addr, addr + len). */
  predicate Unlocked(s: Space, addr: int, len: int, p: Pos) {
    && ValidPos(s.alloc, p)
    && Contains(At(s.alloc, p), addr, len)
    && !IsLocked(At(s.alloc, p).flags)
  }

  predicate PageRange(addr: u64, len: u64) {
    addr % 0x1000 == 0 && len % 0x1000 == 0 && 0 < len && addr + len <= TWO64
  }

  predicate SomeHolds(hs: seq<Hdr>, base: int, len: int) {
    exists i, k :: 0 <= i < |hs| && 0 <= k < |hs[i].busy| && Contains(hs[i].busy[k], base, len)
  }

  /** Two extents of a valid list that cover the same address have the same attributes. */
  lemma SameAttrs(hs: seq<Hdr>, x: Extent, p: Pos, flags: u32, prot: Bits, a: int)
    requires ListOk(hs) && ValidPos(hs, p) && x == At(hs, p) && Cov(x, a, Any) == 1
    requires Total(hs, a, Any) <= 1
    requires Total(hs, a, Exactly(Attr(flags, prot))) > 0
    ensures x.flags == flags && x.prot == prot
  {
    TotalCovers(hs, p.hdr, p.idx, a, Exactly(Attr(x.flags, x.prot)));
    TotalByAttr(hs, a, Attr(x.flags, x.prot), Attr(flags, prot));
  }

  /** The extent vm_space_free finds for an allocated range carries that range's attributes. */
  lemma FoundHasAttrs(s: Space, addr: u64, len: u64, p: Pos)
    requires Valid(s) && PageRange(addr, len) && Unlocked(s, addr, len, p)
    ensures var x := Extracted(s.alloc, Extent(addr, len, 0, {}));
            && x.status == OK && x.ext.flags == At(s.alloc, p).flags && x.ext.prot == At(s.alloc, p).prot
  {
    var req := Extent(addr, len, 0, {});
    ExtractFindsContaining(s.alloc, req, p.hdr, p.idx);
    ExtractMoves(s.alloc, req);
    var x := Extracted(s.alloc, req);
    var p' :| ValidPos(s.alloc, p') && x.ext == At(s.alloc, p');
    var e := At(s.alloc, p);
    assert Total(s.alloc, addr, Any) <= Cover(s, addr) <= 1;
    TotalCovers(s.alloc, p.hdr, p.idx, addr, Exactly(Attr(e.flags, e.prot)));
    SameAttrs(s.alloc, x.ext, p', e.flags, e.prot, addr);
  }

  /** Freeing an unlocked allocated range succeeds, reports that range's attributes, and leaves
      one free extent holding it. */
  lemma FreeSucceeds(s: Space, addr: u64, len: u64, p: Pos)
    requires Valid(s) && PageRange(addr, len) && Unlocked(s, addr, len, p)
    requires AvailSum(s.free) > 0 && AvailSum(s.alloc) > 0
    ensures var (s', out) := Freed(s, addr, len);
            && out == Done(At(s.alloc, p).flags, At(s.alloc, p).prot)
            && SomeHolds(s'.free, addr, len)
  {
    FoundHasAttrs(s, addr, len, p);
    var req := Extent(addr, len, 0, {});
    ExtractMoves(s.alloc, req);
    var x := Extracted(s.alloc, req);
    ReleaseHolds(Space(s.free, x.hdrs), x.ext, addr, len);
  }

  lemma ReleaseHolds(s: Space, found: Extent, base: u64, len: u64)
    requires ListOk(s.free) && ListOk(s.alloc) && WellFormed(found) && !IsLocked(found.flags)
    requires 0 < len && base + len <= TWO64 && InRange(found.base, found.length, base, len)
    requires AvailSum(s.free) > 0 && AvailSum(s.alloc) > 1
    ensures var (s', out) := Release(s, found, base, len);
            && out == Done(found.flags, found.prot)
            && SomeHolds(s'.free, base, len)
  {
    ReleaseMoves(s, found, base, len);
    SplitConserves(found, base, len);
    WithRegionKeeps(found.flags, found.flags);
    var e := Extent(base, len, Region(found.flags), {});
    InsertStatus(s.free, e);
    InsertHolds(s.free, e);
    var f := Inserted(s.free, e).0;
    var i, k :| 0 <= i < |f| && 0 <= k < |f[i].busy| && Holds(f[i].busy[k], e);
    assert Contains(f[i].busy[k], base, len);
  }

  /** Allocating a range that was just freed, with the flags the free reported, succeeds at the
      same address and records exactly those flags. */
  lemma ReallocSucceeds(s: Space, s1: Space, ctxFlags: u32, addr: u64, len: u64, flags: u32, old_: Bits, prot: Bits)
    requires Valid(s1) && PageRange(addr, len) && RegionOk(flags) && TypeOk(flags)
    requires FreeEffect(s, s1, addr, len, flags, old_)
    requires SomeHolds(s1.free, addr, len)
    requires AvailSum(s1.free) > 0 && AvailSum(s1.alloc) > 0
    ensures var (s2, out) := Allocated(s1, ctxFlags, addr, len, flags, prot);
            && out.Placed? && out.addr == addr
            && Valid(s2)
            && AllocEffect(s1, s2, addr, len, flags, prot)
  {
    ReallocFlags(s, s1, ctxFlags, addr, len, flags, old_);
    AllocInPlace(s1, ctxFlags, addr, len, flags, prot);
  }

  lemma AllocInPlace(s: Space, ctxFlags: u32, addr: u64, len: u64, flags: u32, prot: Bits)
    requires Valid(s) && PageRange(addr, len) && AvailSum(s.free) > 0 && AvailSum(s.alloc) > 0
    requires !AllocRefusedEarly(ctxFlags, addr, flags)
    requires Extracted(s.free, AllocRequest(ctxFlags, addr, len, flags)).status == OK
    requires GrantedFlags(s, ctxFlags, addr, len, flags) == flags
    ensures var (s', out) := Allocated(s, ctxFlags, addr, len, flags, prot);
            && out.Placed? && out.addr == addr
            && Valid(s')
            && AllocEffect(s, s', addr, len, flags, prot)
  {
    hide Allocated, Extracted, ListOk;
    PlacedIffFound(s, ctxFlags, addr, len, flags, prot);
    AllocMovesExactly(s, ctxFlags, addr, len, flags, prot);
  }

  lemma ReallocFlags(s: Space, s1: Space, ctxFlags: u32, addr: u64, len: u64, flags: u32, old_: Bits)
    requires Valid(s1) && PageRange(addr, len) && FreeEffect(s, s1, addr, len, flags, old_)
    requires SomeHolds(s1.free, addr, len) && TypeOk(flags)
    ensures !AllocRefusedEarly(ctxFlags, addr, flags)
    ensures Extracted(s1.free, AllocRequest(ctxFlags, addr, len, flags)).status == OK
    ensures GrantedFlags(s1, ctxFlags, addr, len, flags) == flags
  {
    RefoundIsRegion(s, s1, ctxFlags, addr, len, flags, old_);
    WithRegionKeeps(flags, flags);
    WithRegionKeeps(flags, Region(flags));
    assert EffectiveFlags(ctxFlags, addr, flags) == flags;
  }

  lemma {:induction false} AttrOfFreed(s: Space, s1: Space, addr: u64, len: u64, flags: u32, old_: Bits)
    requires Valid(s1) && 0 < len && FreeEffect(s, s1, addr, len, flags, old_)
    ensures Total(s1.free, addr, Exactly(Attr(Region(flags), {}))) > 0 && Total(s1.free, addr, Any) <= 1
  {
    hide ListOk, FreeAttrs, AllocAttrs;
    var at := Exactly(Attr(Region(flags), {}));
    assert Total(s1.free, addr, at) == Total(s.free, addr, at) + Range(addr, len, Region(flags), {}, addr, at);
    assert Total(s1.free, addr, Any) <= Cover(s1, addr) <= 1;
  }

  lemma {:induction false} RefoundIsRegion(s: Space, s1: Space, ctxFlags: u32, addr: u64, len: u64, flags: u32,
                                           old_: Bits)
    requires Valid(s1) && PageRange(addr, len) && FreeEffect(s, s1, addr, len, flags, old_)
    requires SomeHolds(s1.free, addr, len)
    ensures var req := AllocRequest(ctxFlags, addr, len, flags);
            && req == Extent(addr, len, Region(flags), {})
            && Extracted(s1.free, req).status == OK
            && Extracted(s1.free, req).ext.flags == Region(flags)
  {
    var i, k :| 0 <= i < |s1.free| && 0 <= k < |s1.free[i].busy| && Contains(s1.free[i].busy[k], addr, len);
    var req := Extent(addr, len, Region(flags), {});
    ExtractFindsContaining(s1.free, req, i, k);
    ExtractMoves(s1.free, req);
    var x := Extracted(s1.free, req);
    var p :| ValidPos(s1.free, p) && x.ext == At(s1.free, p);
    AttrOfFreed(s, s1, addr, len, flags, old_);
    hide Extracted, Total, Valid, FreeEffect;
    SameAttrs(s1.free, x.ext, p, Region(flags), {}, addr);
  }

  /** s2 is s with the protection of [addr, addr + len) changed from old_ to prot, nothing else. */
  ghost predicate Reprotects(s: Space, s2: Space, addr: int, len: int, flags: u32, old_: Bits, prot: Bits) {
    && SameMap(s.free, s2.free)
    && forall a: int, q :: Total(s2.alloc, a, q) + Range(addr, len, flags, old_, a, q)
                           == Total(s.alloc, a, q) + Range(addr, len, flags, prot, a, q)
  }

  lemma FreeThenAlloc(s: Space, s1: Space, s2: Space, addr: int, len: int, flags: u32, old_: Bits, prot: Bits)
    requires FreeEffect(s, s1, addr, len, flags, old_) && AllocEffect(s1, s2, addr, len, flags, prot)
    ensures Reprotects(s, s2, addr, len, flags, old_, prot)
  {
    forall a: int, q ensures Total(s2.free, a, q) == Total(s.free, a, q) {
      assert Total(s1.free, a, q) == Total(s.free, a, q) + Range(addr, len, Region(flags), {}, a, q);
      assert Total(s1.free, a, q) == Total(s2.free, a, q) + Range(addr, len, Region(flags), {}, a, q);
    }
    forall a: int, q
      ensures Total(s2.alloc, a, q) + Range(addr, len, flags, old_, a, q)
           == Total(s.alloc, a, q) + Range(addr, len, flags, prot, a, q)
    {
      assert Total(s.alloc, a, q) == Total(s1.alloc, a, q) + Range(addr, len, flags, old_, a, q);
      assert Total(s2.alloc, a, q) == Total(s1.alloc, a, q) + Range(addr, len, flags, prot, a, q);
    }
  }

  /** Changing the attributes of an unlocked range, given two spare slots in each list and a
      willing page manager, always succeeds and changes nothing but the protection there;
      when the new protection is the old one, both maps are what they were. */
  lemma ChangeAttrOnlyReprotects(s: Space, ctxFlags: u32, addr: u64, len: u64, set_: Bits, clear: Bits, p: Pos)
    requires Valid(s) && PageRange(addr, len) && Unlocked(s, addr, len, p)
    requires AvailSum(s.free) > 1 && AvailSum(s.alloc) > 1
    ensures var e := At(s.alloc, p);
            var (s', out) := AttrChanged(s, ctxFlags, addr, len, set_, clear, true);
            && out == Changed(e.prot)
            && Valid(s')
            && Reprotects(s, s', addr, len, e.flags, e.prot, e.prot - clear)
            && (e.prot * clear == {} ==> SameMap(s.free, s'.free) && SameMap(s.alloc, s'.alloc))
  {
    var e := At(s.alloc, p);
    var prot := NewProt(e.prot, set_, clear);
    assert prot == e.prot - clear by { NewProtNeverSets(e.prot, set_, clear); }
    FreeAllocRoundTrip(s, ctxFlags, addr, len, p, prot);
    if e.prot * clear == {} {
      KeepsAll(e.prot, clear);
      var s' := AttrChanged(s, ctxFlags, addr, len, set_, clear, true).0;
      assert SameMap(s.alloc, s'.alloc);
    }
  }

  lemma KeepsAll(prot: Bits, clear: Bits)
    requires prot * clear == {}
    ensures prot - clear == prot
  {
    forall b | b in prot ensures b !in clear {
      assert b !in prot * clear;
    }
  }

  /** Freeing a range and allocating it again in place with protection prot. */
  lemma FreeAllocRoundTrip(s: Space, ctxFlags: u32, addr: u64, len: u64, p: Pos, prot: Bits)
    requires Valid(s) && PageRange(addr, len) && Unlocked(s, addr, len, p)
    requires AvailSum(s.free) > 1 && AvailSum(s.alloc) > 1
    ensures var e := At(s.alloc, p);
            var (s1, freed) := Freed(s, addr, len);
            && freed == Done(e.flags, e.prot)
            && var (s2, placed) := Allocated(s1, ctxFlags, addr, len, e.flags, prot);
               && placed.Placed? && placed.addr == addr
               && Valid(s2)
               && Reprotects(s, s2, addr, len, e.flags, e.prot, prot)
               && AvailSum(s2.free) + 2 >= AvailSum(s.free) && AvailSum(s2.alloc) + 2 >= AvailSum(s.alloc)
               && HeldAs(s2, addr, len, e.flags, prot)
  {
    hide Allocated, Freed, Valid, Reprotects, HeldAs, FreeEffect, AllocEffect, AvailSum;
    var e := At(s.alloc, p);
    FreeSucceeds(s, addr, len, p);
    FreeMovesExactly(s, addr, len);
    var s1 := Freed(s, addr, len).0;
    ReallocSucceeds(s, s1, ctxFlags, addr, len, e.flags, e.prot, prot);
    ReallocFlags(s, s1, ctxFlags, addr, len, e.flags, e.prot);
    ValidLists(s1);
    PlacedHolds(s1, ctxFlags, addr, len, e.flags, prot);
    PlacedTakes(s1, ctxFlags, addr, len, e.flags, prot);
    var s2 := Allocated(s1, ctxFlags, addr, len, e.flags, prot).0;
    FreeThenAlloc(s, s1, s2, addr, len, e.flags, e.prot, prot);
  }

  /** Some allocated extent holds all of [addr, addr + len) under these attributes. */
  ghost predicate HeldAs(s: Space, addr: int, len: int, flags: u32, prot: Bits) {
    exists p :: ValidPos(s.alloc, p) && Contains(At(s.alloc, p), addr, len)
      && At(s.alloc, p).flags == flags && At(s.alloc, p).prot == prot
  }

  lemma {:induction false} PlacedHolds(s: Space, ctxFlags: u32, addr: u64, len: u64, flags: u32, prot: Bits)
    requires ListOk(s.free) && ListOk(s.alloc) && PageRange(addr, len)
    requires Allocated(s, ctxFlags, addr, len, flags, prot).1.Placed?
    requires GrantedFlags(s, ctxFlags, addr, len, flags) == flags
    ensures HeldAs(Allocated(s, ctxFlags, addr, len, flags, prot).0, addr, len, flags, prot)
  {
    hide Allocated, Extracted, ListOk, Inserted, EffectiveFlags, WithRegion;
    PlacedInserts(s, ctxFlags, addr, len, flags, prot);
    var req := AllocRequest(ctxFlags, addr, len, flags);
    assert req.base == addr && req.length == len;
    ExtractMoves(s.free, req);
    var x := Extracted(s.free, req);
    WithRegionKeeps(EffectiveFlags(ctxFlags, addr, flags), x.ext.flags);
    InsertedIsHeld(s.alloc, x.ext, addr, len, flags, prot);
  }

  lemma {:induction false} InsertedIsHeld(hs: seq<Hdr>, found: Extent, addr: u64, len: u64, flags: u32, prot: Bits)
    requires ListOk(hs) && PageRange(addr, len) && WellFormed(found) && Region(flags) == Region(found.flags)
    requires InRange(found.base, found.length, addr, len) && Inserted(hs, Extent(addr, len, flags, prot)).1 == OK
    ensures forall s: Space :: s.alloc == Inserted(hs, Extent(addr, len, flags, prot)).0 ==>
              HeldAs(s, addr, len, flags, prot)
  {
    hide ListOk, Inserted;
    InRangeExact(found, addr, len);
    var e := Extent(addr, len, flags, prot);
    InsertHolds(hs, e);
    var hs' := Inserted(hs, e).0;
    var i, k :| 0 <= i < |hs'| && 0 <= k < |hs'[i].busy| && Holds(hs'[i].busy[k], e);
    assert ValidPos(hs', Pos(i, k)) && Contains(At(hs', Pos(i, k)), addr, len);
  }

  lemma PlaceTakes(s: Space, found: Extent, base: u64, len: u64, flags: u32, prot: Bits)
    ensures var (s', out) := Place(s, found, base, len, flags, prot);
            out.Placed? ==> AvailSum(s'.free) + 2 >= AvailSum(s.free) && AvailSum(s'.alloc) + 1 >= AvailSum(s.alloc)
  {
    hide Inserted, AvailSum, Split, WithRegion;
    var cut := Split(found, base, len);
    InsertTakesOne(s.free, cut.left);
    InsertTakesOne(Inserted(s.free, cut.left).0, cut.right);
    InsertTakesOne(s.alloc, Extent(base, len, WithRegion(flags, cut.left.flags), prot));
  }

  lemma PlacedTakes(s: Space, ctxFlags: u32, addr: u64, len: u64, flags: u32, prot: Bits)
    requires ListOk(s.free) && addr != BASE_AUTO
    ensures var (s', out) := Allocated(s, ctxFlags, addr, len, flags, prot);
            out.Placed? ==> AvailSum(s'.free) + 1 >= AvailSum(s.free) && AvailSum(s'.alloc) + 1 >= AvailSum(s.alloc)
  {
    hide Place, Extracted, ListOk, AvailSum;
    if Allocated(s, ctxFlags, addr, len, flags, prot).1.Placed? {
      var req := AllocRequest(ctxFlags, addr, len, flags);
      ExtractMoves(s.free, req);
      var x := Extracted(s.free, req);
      PlaceTakes(Space(x.hdrs, s.alloc), x.ext, req.base, req.length, EffectiveFlags(ctxFlags, addr, flags), prot);
    }
  }

  /** When the page manager refuses, the rollback restores both maps, and the call ends with
      VM_OK all the same. */
  lemma RollbackRestores(s: Space, ctxFlags: u32, addr: u64, len: u64, set_: Bits, clear: Bits, p: Pos)
    requires Valid(s) && PageRange(addr, len) && Unlocked(s, addr, len, p)
    requires AvailSum(s.free) > 3 && AvailSum(s.alloc) > 3
    ensures var (s', out) := AttrChanged(s, ctxFlags, addr, len, set_, clear, false);
            && out == Changed(At(s.alloc, p).prot)
            && Valid(s') && SameMap(s.free, s'.free) && SameMap(s.alloc, s'.alloc)
  {
    hide Allocated, Freed, Valid, AvailSum;
    var e := At(s.alloc, p);
    var prot := NewProt(e.prot, set_, clear);
    FreeAllocRoundTrip(s, ctxFlags, addr, len, p, prot);
    var s2 := Allocated(Freed(s, addr, len).0, ctxFlags, addr, len, e.flags, prot).0;
    var p2 :| ValidPos(s2.alloc, p2) && Contains(At(s2.alloc, p2), addr, len)
      && At(s2.alloc, p2).flags == e.flags && At(s2.alloc, p2).prot == prot;
    FreeAllocRoundTrip(s2, ctxFlags, addr, len, p2, e.prot);
    var s4 := Allocated(Freed(s2, addr, len).0, ctxFlags, addr, len, e.flags, e.prot).0;
    ReprotectsBack(s, s2, s4, addr, len, e.flags, e.prot, prot);
  }

  lemma ReprotectsBack(s: Space, s2: Space, s4: Space, addr: int, len: int, flags: u32, old_: Bits, prot: Bits)
    requires Reprotects(s, s2, addr, len, flags, old_, prot) && Reprotects(s2, s4, addr, len, flags, prot, old_)
    ensures SameMap(s.free, s4.free) && SameMap(s.alloc, s4.alloc)
  {
    forall a: int, q ensures Total(s4.alloc, a, q) == Total(s.alloc, a, q) {
      assert Total(s2.alloc, a, q) + Range(addr, len, flags, old_, a, q)
        == Total(s.alloc, a, q) + Range(addr, len, flags, prot, a, q);
      assert Total(s4.alloc, a, q) + Range(addr, len, flags, prot, a, q)
        == Total(s2.alloc, a, q) + Range(addr, len, flags, old_, a, q);
    }
    forall a: int, q ensures Total(s4.free, a, q) == Total(s.free, a, q) {
      assert Total(s2.free, a, q) == Total(s.free, a, q);
    }
  }

  /** Every address of the range is allocated under these attributes. */
  ghost predicate Carries(s: Space, addr: int, len: int, flags: u32, prot: Bits) {
    forall a: int :: addr <= a < addr + len ==> Total(s.alloc, a, Exactly(Attr(flags, prot))) > 0
  }

  lemma HeldCarries(s: Space, addr: int, len: int, p: Pos)
    requires ValidPos(s.alloc, p) && Contains(At(s.alloc, p), addr, len)
    ensures Carries(s, addr, len, At(s.alloc, p).flags, At(s.alloc, p).prot)
  {
    var e := At(s.alloc, p);
    forall a: int | addr <= a < addr + len ensures Total(s.alloc, a, Exactly(Attr(e.flags, e.prot))) > 0 {
      TotalCovers(s.alloc, p.hdr, p.idx, a, Exactly(Attr(e.flags, e.prot)));
    }
  }

  /** vm_change_attr answers VM_OK whether or not anything changed. After it the range carries
      the protection asked for exactly when the page manager agreed or that is what the range
      had before. */
  lemma OkMeansChangedIff(s: Space, ctxFlags: u32, addr: u64, len: u64, set_: Bits, clear: Bits, p: Pos, pagesOk: bool)
    requires Valid(s) && PageRange(addr, len) && Unlocked(s, addr, len, p)
    requires AvailSum(s.free) > 3 && AvailSum(s.alloc) > 3
    ensures var e := At(s.alloc, p);
            var prot := NewProt(e.prot, set_, clear);
            var (s', out) := AttrChanged(s, ctxFlags, addr, len, set_, clear, pagesOk);
            && out == Changed(e.prot)
            && (Carries(s', addr, len, e.flags, prot) <==> pagesOk || prot == e.prot)
  {
    hide AttrChanged, Valid, AvailSum;
    var e := At(s.alloc, p);
    var prot := NewProt(e.prot, set_, clear);
    var s' := AttrChanged(s, ctxFlags, addr, len, set_, clear, pagesOk).0;
    HeldCarries(s, addr, len, p);
    if pagesOk {
      NewProtNeverSets(e.prot, set_, clear);
      ChangeAttrOnlyReprotects(s, ctxFlags, addr, len, set_, clear, p);
      forall a: int | addr <= a < addr + len ensures Total(s'.alloc, a, Exactly(Attr(e.flags, prot))) > 0 {
        var q := Exactly(Attr(e.flags, prot));
        assert Total(s'.alloc, a, q) + Range(addr, len, e.flags, e.prot, a, q)
          == Total(s.alloc, a, q) + Range(addr, len, e.flags, prot, a, q);
      }
    } else {
      RollbackRestores(s, ctxFlags, addr, len, set_, clear, p);
      MapsAreFunctionsAndDisjoint(s', addr, Attr(e.flags, prot), Attr(e.flags, e.prot));
      var q := Exactly(Attr(e.flags, e.prot));
      assert Total(s'.alloc, addr, q) == Total(s.alloc, addr, q) > 0;
      assert prot == e.prot ==> Carries(s', addr, len, e.flags, prot);
    }
  }

  // ---------------------------------------------------------------- when it fails

  /** vm_space_free refuses a range of whole pages exactly when no allocated extent holds all of it,
      or the one that does is locked. */
  lemma FreeRefusedIff(s: Space, addr: u64, len: u64)
    requires Valid(s) && PageRange(addr, len)
    ensures Freed(s, addr, len).1.Refused? <==> forall p :: ValidPos(s.alloc, p) ==> !Unlocked(s, addr, len, p)
  {
    var req := Extent(addr, len, 0, {});
    var x := Extracted(s.alloc, req);
    if p :| Unlocked(s, addr, len, p) {
      FoundHasAttrs(s, addr, len, p);
    }
    if x.status == OK {
      ExtractMoves(s.alloc, req);
      var p :| ValidPos(s.alloc, p) && x.ext == At(s.alloc, p);
      InRangeExact(x.ext, addr, len);
      hide Extracted, ListOk, InRange, Release;
      ReleaseMoves(Space(s.free, x.hdrs), x.ext, addr, len);
    }
  }

  /** No free reaches memory that was allocated with VM_LOCKED. */
  lemma LockedStays(s: Space, addr: u64, len: u64, flags: u32, prot: Bits)
    requires Valid(s) && PageRange(addr, len)
    requires Total(s.alloc, addr, Exactly(Attr(flags, prot))) > 0 && IsLocked(flags)
    ensures Freed(s, addr, len).1 == Refused
  {
    var req := Extent(addr, len, 0, {});
    var x := Extracted(s.alloc, req);
    if x.status == OK {
      ExtractMoves(s.alloc, req);
      var p :| ValidPos(s.alloc, p) && x.ext == At(s.alloc, p);
      InRangeExact(x.ext, addr, len);
      assert Total(s.alloc, addr, Any) <= Cover(s, addr) <= 1;
      hide Extracted, ListOk, InRange, Release;
      SameAttrs(s.alloc, x.ext, p, flags, prot, addr);
      ReleaseMoves(Space(s.free, x.hdrs), x.ext, addr, len);
    }
  }

  /** vm_change_attr answers VM_FAIL exactly for ranges that are not whole pages or that no unlocked
      allocated extent holds, and then changes neither map. */
  lemma ChangeFailsIff(s: Space, ctxFlags: u32, addr: u64, len: u64, set_: Bits, clear: Bits, pagesOk: bool)
    requires Valid(s) && 0 < len && addr + len <= TWO64
    ensures var (s', out) := AttrChanged(s, ctxFlags, addr, len, set_, clear, pagesOk);
            && (out == Failed <==>
                  addr % 0x1000 != 0 || len % 0x1000 != 0
                  || forall p :: ValidPos(s.alloc, p) ==> !Unlocked(s, addr, len, p))
            && (out == Failed ==> s'.free == s.free && SameMap(s.alloc, s'.alloc))
  {
    hide Valid, Freed, Allocated, Unlocked, NewProt;
    if PageRange(addr, len) {
      FreeRefusedIff(s, addr, len);
      WholePages(addr, len);
      FreeMovesExactly(s, addr, len);
      if Freed(s, addr, len).1.Done? {
        ReallocNotRefused(s, ctxFlags, addr, len, NewProt(Freed(s, addr, len).1.prot, set_, clear));
      }
    }
  }

  lemma WholePages(addr: u64, len: u64)
    requires PageRange(addr, len)
    ensures NoWrap(addr, len) && PageBase(addr) == addr && PageLen(len) == len
  {
  }

  /** A range of whole pages that was just freed is never refused: the branch that allocates it
      again with its old protection is not reached. */
  lemma ReallocNotRefused(s: Space, ctxFlags: u32, addr: u64, len: u64, prot: Bits)
    requires Valid(s) && PageRange(addr, len) && Freed(s, addr, len).1.Done?
    ensures var (s1, freed) := Freed(s, addr, len);
            !Allocated(s1, ctxFlags, addr, len, freed.flags, prot).1.Refused?
  {
    hide Freed, Valid, Allocated, Extracted, Inserted, ListOk;
    WholePages(addr, len);
    FreeMovesExactly(s, addr, len);
    var (s1, freed) := Freed(s, addr, len);
    FreedIsHeld(s, addr, len);
    ReallocFlags(s, s1, ctxFlags, addr, len, freed.flags, freed.prot);
    FoundNotRefused(s1, ctxFlags, addr, len, freed.flags, prot);
  }

  lemma FreedIsHeld(s: Space, addr: u64, len: u64)
    requires Valid(s) && PageRange(addr, len) && Freed(s, addr, len).1.Done?
    ensures SomeHolds(Freed(s, addr, len).0.free, addr, len)
  {
    hide Freed, ListOk, InRange, Extracted, Inserted;
    WholePages(addr, len);
    DoneInserts(s, addr, len);
    var req := Extent(addr, len, 0, {});
    ExtractMoves(s.alloc, req);
    var x := Extracted(s.alloc, req);
    WithRegionKeeps(0, x.ext.flags);
    InRangeExact(x.ext, addr, len);
    var e := Extent(addr, len, Region(x.ext.flags), {});
    InsertHolds(s.free, e);
    var f := Inserted(s.free, e).0;
    var i, k :| 0 <= i < |f| && 0 <= k < |f[i].busy| && Holds(f[i].busy[k], e);
    assert Contains(f[i].busy[k], addr, len);
  }

  lemma FoundNotRefused(s: Space, ctxFlags: u32, addr: u64, len: u64, flags: u32, prot: Bits)
    requires Valid(s) && NoWrap(addr, len) && !AllocRefusedEarly(ctxFlags, addr, flags)
    requires Extracted(s.free, AllocRequest(ctxFlags, addr, len, flags)).status == OK
    ensures !Allocated(s, ctxFlags, addr, len, flags, prot).1.Refused?
  {
    hide Extracted, ListOk, InRange, Place, EffectiveFlags, PageBase, PageLen;
    FoundFits(s, ctxFlags, addr, len, flags);
    var req := AllocRequest(ctxFlags, addr, len, flags);
    var x := Extracted(s.free, req);
    PlaceMoves(Space(x.hdrs, s.alloc), x.ext, if addr == BASE_AUTO then x.ext.base else req.base, req.length,
               EffectiveFlags(ctxFlags, addr, flags), prot);
  }

  /** In any space, valid or not: a range that was freed and cannot be found again, which does not
      depend on the protection, is given up; the call fails and leaves it free. */
  lemma ChangeGivesUp(s: Space, ctxFlags: u32, addr: u64, len: u64, set_: Bits, clear: Bits, pagesOk: bool)
    requires addr % 0x1000 == 0 && len % 0x1000 == 0 && Freed(s, addr, len).1.Done?
    requires var (s1, freed) := Freed(s, addr, len);
             || AllocRefusedEarly(ctxFlags, addr, freed.flags)
             || Extracted(s1.free, AllocRequest(ctxFlags, addr, len, freed.flags)).status != OK
    ensures AttrChanged(s, ctxFlags, addr, len, set_, clear, pagesOk) == (Freed(s, addr, len).0, Failed)
  {
    hide Freed, Extracted, AllocRefusedEarly;
  }

  // ---------------------------------------------------------------- the object

  class VmContext {
    const free: ExtentList
    const alloc: ExtentList
    const flags: u32

    /** vm_ctx_init, on a processor for which cpu_virt_max is vmMax: a header in each list, and
        both halves of the address space in the free one. */
    constructor (flags: u32, vmMax: u64, freeCap: nat, allocCap: nat)
      ensures free != alloc && fresh(free) && fresh(alloc)
      ensures this.flags == flags && State() == InitialSpace(vmMax, freeCap, allocCap)
    {
      hide Inserted, HighHalf, LowHalf;
      this.flags := flags;
      free := new ExtentList();
      alloc := new ExtentList();
      new;
      free.AddHeader(freeCap);
      assert free.hdrs == [Hdr(freeCap, freeCap, [])];
      var status := free.Insert(HighHalf(vmMax));
      status := free.Insert(LowHalf(vmMax));
      alloc.AddHeader(allocCap);
      assert alloc.hdrs == [Hdr(allocCap, allocCap, [])];
    }

    function State(): Space
      reads free, alloc
    {
      Space(free.hdrs, alloc.hdrs)
    }

    method SpaceAlloc(address: u64, length: u64, reqFlags: u32, prot: Bits) returns (out: Outcome)
      requires free != alloc
      modifies free, alloc
      ensures (State(), out) == Allocated(old(State()), flags, address, length, reqFlags, prot)
    {
      var addr, len, fl := address, length, reqFlags;
      if addr == BASE_AUTO {
        if Region(fl) == REGION_MASK {
          return Refused;
        } else if Region(fl) == 0 {
          fl := WithRegion(fl, flags);
        }
      }
      if !TypeOk(fl) {
        return Refused;
      }
      if len % 0x1000 != 0 {
        len := AlignUp(len);
      }
      if addr != BASE_AUTO && addr % 0x1000 != 0 {
        addr := AlignDown(addr);
      }
      var status, req := free.Extract(Extent(addr, len, Region(fl), {}));
      if status != OK {
        return Refused;  // vm_extent_merge never succeeds
      }
      if address == BASE_AUTO {
        addr := req.base;
      }
      var cut := Split(req, addr, len);
      if cut.status < 0 {
        status := free.Insert(req);
        return if status == NOMEM then Halted else Refused;
      }
      status := free.Insert(cut.left);
      if status == NOMEM {
        return Halted;
      }
      if cut.status > 0 {
        status := free.Insert(cut.right);
        if status == NOMEM {
          return OutOfSlots;
        }
      }
      status := alloc.Insert(Extent(addr, len, WithRegion(fl, cut.left.flags), prot));
      if status == NOMEM {
        return OutOfSlots;
      }
      if status != OK {
        return Undo;
      }
      return Placed(addr);
    }

    method SpaceFree(address: u64, length: u64) returns (out: Outcome)
      requires free != alloc
      modifies free, alloc
      ensures (State(), out) == Freed(old(State()), address, length)
    {
      if address == BASE_AUTO {
        return Refused;
      }
      var addr, len := address, length;
      if len % 0x1000 != 0 {
        len := AlignUp(len);
      }
      if addr % 0x1000 != 0 {
        addr := AlignDown(addr);
      }
      var status, req := alloc.Extract(Extent(addr, len, 0, {}));
      if status != OK {
        return Refused;
      }
      if IsLocked(req.flags) {
        status := alloc.Insert(req);
        return Refused;
      }
      var cut := Split(req, addr, len);
      if cut.status < 0 {
        status := alloc.Insert(req);
        return if status == NOMEM then Halted else Refused;
      }
      status := alloc.Insert(cut.left);
      if status == NOMEM {
        return Halted;
      }
      if cut.status > 0 {
        status := alloc.Insert(cut.right);
        if status == NOMEM {
          return OutOfSlots;
        }
      }
      status := free.Insert(Extent(addr, len, Region(cut.left.flags), {}));
      if status == NOMEM {
        return OutOfSlots;
      }
      return if status != OK then Refused else Done(cut.left.flags, cut.left.prot);
    }

    method ChangeAttr(addr: u64, len: u64, set_: Bits, clear: Bits, pagesOk: bool) returns (out: AttrOutcome)
      requires free != alloc
      modifies free, alloc
      ensures (State(), out) == AttrChanged(old(State()), flags, addr, len, set_, clear, pagesOk)
    {
      if addr % 0x1000 != 0 || len % 0x1000 != 0 {
        return Failed;
      }
      var freed := SpaceFree(addr, len);
      if freed.Refused? {
        return Failed;
      }
      if !freed.Done? {
        return Stuck;
      }
      var placed := SpaceAlloc(addr, len, freed.flags, NewProt(freed.prot, set_, clear));
      if !placed.Placed? {
        if !placed.Refused? {
          return Stuck;
        }
        placed := SpaceAlloc(addr, len, freed.flags, freed.prot);
        return if placed.Refused? then Failed else Stuck;
      }
      if !pagesOk {
        var undone := SpaceFree(addr, len);
        if !undone.Done? {
          return Stuck;
        }
        placed := SpaceAlloc(addr, len, freed.flags, freed.prot);
        return if placed.Placed? || placed.Refused? then Changed(freed.prot) else Stuck;
      }
      return Changed(freed.prot);
    }
  }
}
