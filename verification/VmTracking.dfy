/** Growing the bookkeeping (mm/vm_extent.c): vm_extent_alloc_tracking takes a page for a new
    slot header from the very lists it manages, and vm_extent_alloc_slot grows the list of
    allocated memory first when that page could not be recorded. */
module VmTracking {
  import opened Extents
  import opened ExtentLists
  import opened VmSpace
  import opened VmContexts

  /** Which list is to grow: one of the kernel context's own, or some other context's. */
  datatype Target = KernelFree | KernelAlloc | Other

  /** The kernel's lists, and the other list when there is one. */
  datatype Lists = Lists(kernel: Space, other: seq<Hdr>)

  /** The answers of the page manager, in the order it is asked. */
  datatype Pages = Pages(backend: bool, storage: bool)

  /** VM_SLOT_ALLOC_FLAGS. */
  const SLOT_FLAGS: u32 := 58

  const SLOT_REQUEST := Extent(BASE_AUTO, PAGE_SIZE, HIGH_MEM, {})

  /** The top page of the extent that was taken. */
  function SlotExtent(orig: Extent): Extent {
    Extent(Sub64(Add64(orig.base, orig.length), PAGE_SIZE), PAGE_SIZE, SLOT_FLAGS, ATTR_WRITABLE)
  }

  function AddHeader(hs: seq<Hdr>, cap: nat): seq<Hdr> {
    hs + [Hdr(cap, cap, [])]
  }

  function Grow(l: Lists, t: Target, cap: nat): Lists {
    match t
    case KernelFree => l.(kernel := l.kernel.(free := AddHeader(l.kernel.free, cap)))
    case KernelAlloc => l.(kernel := l.kernel.(alloc := AddHeader(l.kernel.alloc, cap)))
    case Other => l.(other := AddHeader(l.other, cap))
  }

  function WithFree(l: Lists, free: seq<Hdr>): Lists {
    l.(kernel := l.kernel.(free := free))
  }

  predicate CanRecord(l: Lists, t: Target, slot: Extent) {
    t == KernelAlloc || AvailSum(l.kernel.alloc) >= 1 || JoinableList(l.kernel.alloc, slot)
  }

  function Tracked(l: Lists, t: Target, cap: nat, pm: Pages): (Lists, Status) {
    var x := Extracted(l.kernel.free, SLOT_REQUEST);
    if x.status != OK then (l, NOMEM)
    else
      var slot := SlotExtent(x.ext);
      if !CanRecord(l, t, slot) then
        (WithFree(l, Inserted(x.hdrs, x.ext).0), NOENT)
      else if !(pm.backend && pm.storage) then
        (WithFree(l, Inserted(x.hdrs, x.ext).0), FAIL)
      else
        var g := Grow(WithFree(l, x.hdrs), t, cap);
        var (alloc, st) := Inserted(g.kernel.alloc, slot);
        var g := g.(kernel := g.kernel.(alloc := alloc));
        if st != OK then (WithFree(g, Inserted(g.kernel.free, x.ext).0), FAIL)
        else
          var rem := x.ext.(length := Sub64(x.ext.length, PAGE_SIZE));
          (if rem.length > 0 then WithFree(g, Inserted(g.kernel.free, rem).0) else g, OK)
  }

  function AllocSlot(l: Lists, t: Target, cap: nat, allocCap: nat, pm: seq<Pages>): (Lists, Status)
    requires |pm| == 3
  {
    var (l1, st) := Tracked(l, t, cap, pm[0]);
    if st != NOENT then (l1, st)
    else
      var (l2, st) := Tracked(l1, KernelAlloc, allocCap, pm[1]);
      if st != OK then (l2, st) else Tracked(l2, t, cap, pm[2])
  }

  // ---------------------------------------------------------------- slots in all

  function CapSum(hs: seq<Hdr>): nat {
    if hs == [] then 0 else hs[0].cap + CapSum(hs[1..])
  }

  lemma {:induction false} CapConcat(s: seq<Hdr>, t: seq<Hdr>)
    ensures CapSum(s + t) == CapSum(s) + CapSum(t)
  {
    if s == [] {
      assert s + t == t;
    } else {
      assert (s + t)[1..] == s[1..] + t;
      CapConcat(s[1..], t);
    }
  }

  lemma {:induction false} CapPointwise(s: seq<Hdr>, t: seq<Hdr>)
    requires |s| == |t| && forall i :: 0 <= i < |s| ==> s[i].cap == t[i].cap
    ensures CapSum(s) == CapSum(t)
  {
    if s != [] {
      CapPointwise(s[1..], t[1..]);
    }
  }

  lemma TakeKeepsCap(hs: seq<Hdr>, p: Pos)
    requires ValidPos(hs, p)
    ensures CapSum(TakeAt(hs, p)) == CapSum(hs)
  {
    var h := hs[p.hdr];
    var h' := TakeAt(hs, p)[0];
    assert TakeAt(hs, p) == [h'] + (hs[..p.hdr] + hs[p.hdr + 1..]);
    assert hs == hs[..p.hdr] + ([h] + hs[p.hdr + 1..]);
    CapConcat(hs[..p.hdr], hs[p.hdr + 1..]);
    CapConcat(hs[..p.hdr], [h] + hs[p.hdr + 1..]);
  }

  lemma GrowKeeps(hs: seq<Hdr>, cap: nat)
    requires ListOk(hs)
    ensures ListOk(AddHeader(hs, cap))
    ensures CapSum(AddHeader(hs, cap)) == CapSum(hs) + cap
    ensures AvailSum(AddHeader(hs, cap)) == AvailSum(hs) + cap
    ensures SameMap(hs, AddHeader(hs, cap))
  {
    var h := Hdr(cap, cap, []);
    assert HdrOk(h);
    CapConcat(hs, [h]);
    AvailConcat(hs, [h]);
    assert [h][1..] == [];
    forall a: int, q ensures Total(AddHeader(hs, cap), a, q) == Total(hs, a, q) {
      TotalConcat(hs, [h], a, q);
      assert Total([h], a, q) == Count(h.busy, a, q) + Total([h][1..], a, q);
    }
  }

  // ---------------------------------------------------------------- all or nothing

  /** The first extent long enough is cut at its top page. */
  lemma SlotIsTopPage(orig: Extent)
    requires WellFormed(orig) && orig.length >= PAGE_SIZE && Region(orig.flags) == HIGH_MEM && orig.flags
      == Region(orig.flags)
    ensures var slot := SlotExtent(orig);
            var rem := orig.(length := Sub64(orig.length, PAGE_SIZE));
            && WellFormed(slot) && slot.base == End(orig) - PAGE_SIZE
            && TypeOk(SLOT_FLAGS) && Region(SLOT_FLAGS) == HIGH_MEM
            && (rem.length > 0 ==> WellFormed(rem))
            && forall a: int, q ::
                 Cov(orig, a, q) == Cov(rem, a, q) + Range(slot.base, PAGE_SIZE, orig.flags, orig.prot, a, q)
  {
  }

  lemma InsertKeepsCap(hs: seq<Hdr>, e: Extent)
    requires ListOk(hs) && WellFormed(e)
    ensures CapSum(Inserted(hs, e).0) == CapSum(hs)
  {
    InsertStatus(hs, e);
    if Inserted(hs, e).1 == OK {
      InsertKeepsHeaders(hs, e);
      CapPointwise(Inserted(hs, e).0, hs);
    }
  }

  /** Taking the free extent: what is left has a slot for putting it, or a part of it, back. */
  lemma SlotTaken(s: Space)
    requires WellKept(s) && Extracted(s.free, SLOT_REQUEST).status == OK
    ensures var x := Extracted(s.free, SLOT_REQUEST);
            && ListOk(x.hdrs) && AvailSum(x.hdrs) > 0 && CapSum(x.hdrs) == CapSum(s.free)
            && WellFormed(x.ext) && x.ext.length >= PAGE_SIZE && x.ext.flags == HIGH_MEM && x.ext.prot == {}
            && forall a: int, q :: Total(x.hdrs, a, q) == Total(s.free, a, q) - Cov(x.ext, a, q)
  {
    var x := Extracted(s.free, SLOT_REQUEST);
    ExtractMoves(s.free, SLOT_REQUEST);
    var p :| ValidPos(s.free, p) && x.ext == At(s.free, p);
    HeldAttrs(s.free, p);
    TakeKeepsCap(s.free, Scan(s.free, SLOT_REQUEST, 0, 0, None).value);
  }

  /** Putting the whole extent back restores the free map. */
  lemma SlotPutBack(s: Space)
    requires WellKept(s) && Extracted(s.free, SLOT_REQUEST).status == OK
    ensures var x := Extracted(s.free, SLOT_REQUEST);
            var (f, st) := Inserted(x.hdrs, x.ext);
            && st == OK && ListOk(f) && SameMap(s.free, f) && CapSum(f) == CapSum(s.free)
  {
    SlotTaken(s);
    var x := Extracted(s.free, SLOT_REQUEST);
    InsertStatus(x.hdrs, x.ext);
    InsertAddsExactly(x.hdrs, x.ext);
    InsertKeepsCap(x.hdrs, x.ext);
  }

  /** s and s' describe the same two address maps, in lists with as many slots. */
  ghost predicate SameMaps(s: Space, s': Space) {
    && SameMap(s.free, s'.free) && SameMap(s.alloc, s'.alloc)
    && CapSum(s'.free) == CapSum(s.free) && CapSum(s'.alloc) == CapSum(s.alloc)
  }

  function TargetList(l: Lists, t: Target): seq<Hdr> {
    match t
    case KernelFree => l.kernel.free
    case KernelAlloc => l.kernel.alloc
    case Other => l.other
  }

  /** cap more slots on the list that was to grow, none elsewhere. */
  predicate Grown(l: Lists, l': Lists, t: Target, cap: nat) {
    && CapSum(l'.kernel.free) == CapSum(l.kernel.free) + (if t == KernelFree then cap else 0)
    && CapSum(l'.kernel.alloc) == CapSum(l.kernel.alloc) + (if t == KernelAlloc then cap else 0)
    && l'.other == (if t == Other then AddHeader(l.other, cap) else l.other)
  }

  /** When the page is recorded the insertion into the allocated list cannot fail: the branch
      "we checked previously but now we cannot insert" is never taken. */
  lemma RecordingSucceeds(l: Lists, t: Target, cap: nat)
    requires WellKept(l.kernel) && 0 < cap
    requires Extracted(l.kernel.free, SLOT_REQUEST).status == OK
    requires CanRecord(l, t, SlotExtent(Extracted(l.kernel.free, SLOT_REQUEST).ext))
    ensures var x := Extracted(l.kernel.free, SLOT_REQUEST);
            Inserted(Grow(WithFree(l, x.hdrs), t, cap).kernel.alloc, SlotExtent(x.ext)).1 == OK
  {
    SlotTaken(l.kernel);
    var x := Extracted(l.kernel.free, SLOT_REQUEST);
    SlotIsTopPage(x.ext);
    var alloc := Grow(WithFree(l, x.hdrs), t, cap).kernel.alloc;
    if t == KernelAlloc {
      GrowKeeps(l.kernel.alloc, cap);
    }
    InsertStatus(alloc, SlotExtent(x.ext));
  }

  /** The free list after the remainder has been put back. */
  lemma RemainderReturns(free: seq<Hdr>, hdrs: seq<Hdr>, orig: Extent)
    requires ListOk(hdrs) && AvailSum(hdrs) > 0
    requires WellFormed(orig) && orig.length >= PAGE_SIZE && orig.flags == HIGH_MEM && orig.prot == {}
    requires forall a: int, q :: Total(hdrs, a, q) == Total(free, a, q) - Cov(orig, a, q)
    ensures var rem := orig.(length := Sub64(orig.length, PAGE_SIZE));
            var f := if rem.length > 0 then Inserted(hdrs, rem).0 else hdrs;
            && ListOk(f) && CapSum(f) == CapSum(hdrs)
            && Adds(f, free, SlotExtent(orig).base, PAGE_SIZE, HIGH_MEM, {})
  {
    hide ListOk, WellFormed, SlotExtent, Inserted;
    SlotIsTopPage(orig);
    var rem := orig.(length := Sub64(orig.length, PAGE_SIZE));
    if rem.length > 0 {
      InsertStatus(hdrs, rem);
      InsertAddsExactly(hdrs, rem);
      InsertKeepsCap(hdrs, rem);
    }
  }

  lemma AllocRecords(alloc: seq<Hdr>, slot: Extent)
    requires ListOk(alloc) && WellFormed(slot) && Inserted(alloc, slot).1 == OK
    ensures var a := Inserted(alloc, slot).0;
            && ListOk(a) && CapSum(a) == CapSum(alloc)
            && Adds(alloc, a, slot.base, slot.length, slot.flags, slot.prot)
  {
    InsertAddsExactly(alloc, slot);
    InsertKeepsCap(alloc, slot);
  }

  /** vm_extent_alloc_tracking is all or nothing, whatever the page manager answers: on VM_OK it
      moves exactly the top page of one free extent to the allocated map and adds cap slots to
      the list; on any other status both maps are unchanged. It fails with VM_FAIL only when
      the page manager refused. */
  lemma TrackingIsAllOrNothing(l: Lists, t: Target, cap: nat, pm: Pages)
    requires WellKept(l.kernel) && 0 < cap
    ensures var (l', st) := Tracked(l, t, cap, pm);
            && WellKept(l'.kernel) && (Valid(l.kernel) ==> Valid(l'.kernel))
            && (st == FAIL ==> !(pm.backend && pm.storage))
            && (st != OK ==> SameMaps(l.kernel, l'.kernel) && l'.other == l.other)
            && (st == OK ==>
                  && Grown(l, l', t, cap)
                  && exists p :: ValidPos(l.kernel.free, p) && Fits(At(l.kernel.free, p), SLOT_REQUEST)
                       && AllocEffect(l.kernel, l'.kernel, End(At(l.kernel.free, p)) - 0x1000, 0x1000,
                                      SLOT_FLAGS, ATTR_WRITABLE))
  {
    hide Tracked;
    CoverDecides(l.kernel, Tracked(l, t, cap, pm).0.kernel);
    if Tracked(l, t, cap, pm).1 == OK {
      TrackedOk(l, t, cap, pm);
      SlotFrom(l.kernel);
      hide WellKept, AllocEffect, Grown, Extracted, Fits, SlotExtent;
    } else {
      TrackedFails(l, t, cap, pm);
    }
  }

  lemma TrackedFails(l: Lists, t: Target, cap: nat, pm: Pages)
    requires WellKept(l.kernel) && 0 < cap && Tracked(l, t, cap, pm).1 != OK
    ensures var (l', st) := Tracked(l, t, cap, pm);
            && WellKept(l'.kernel) && SameMaps(l.kernel, l'.kernel) && l'.other == l.other
            && (forall a: int :: Cover(l'.kernel, a) == Cover(l.kernel, a))
            && (st == FAIL ==> !(pm.backend && pm.storage))
  {
    var (l', st) := Tracked(l, t, cap, pm);
    var x := Extracted(l.kernel.free, SLOT_REQUEST);
    if x.status == OK {
      if CanRecord(l, t, SlotExtent(x.ext)) && pm.backend && pm.storage {
        RecordingSucceeds(l, t, cap);
      }
      SlotPutBack(l.kernel);
      hide ListOk, WellFormed, Inserted, Extracted;
      SameMapsKeep(l.kernel, l'.kernel);
    }
  }

  lemma SameMapsKeep(s: Space, s': Space)
    requires WellKept(s) && ListOk(s'.free) && ListOk(s'.alloc)
    requires SameMap(s.free, s'.free) && SameMap(s.alloc, s'.alloc)
    ensures WellKept(s') && forall a: int :: Cover(s', a) == Cover(s, a)
  {
  }

  /** What covers the same addresses as often is as valid. */
  lemma CoverDecides(s: Space, s': Space)
    ensures WellKept(s') && (forall a: int :: Cover(s', a) == Cover(s, a)) && Valid(s) ==> Valid(s')
  {
    hide Cover, WellKept;
  }

  /** The two lists after a page was recorded. */
  lemma TrackedIs(l: Lists, t: Target, cap: nat, pm: Pages)
    requires Tracked(l, t, cap, pm).1 == OK
    ensures var l' := Tracked(l, t, cap, pm).0;
            var x := Extracted(l.kernel.free, SLOT_REQUEST);
            var g := Grow(WithFree(l, x.hdrs), t, cap);
            var rem := x.ext.(length := Sub64(x.ext.length, PAGE_SIZE));
            && x.status == OK && CanRecord(l, t, SlotExtent(x.ext)) && l'.other == g.other
            && l'.kernel.free == (if rem.length > 0 then Inserted(g.kernel.free, rem).0 else g.kernel.free)
            && Inserted(g.kernel.alloc, SlotExtent(x.ext)) == (l'.kernel.alloc, OK)
  {
    hide Inserted, Extracted, CanRecord, SlotExtent;
  }

  lemma {:induction false} TrackedFree(l: Lists, t: Target, cap: nat, pm: Pages)
    requires WellKept(l.kernel) && Tracked(l, t, cap, pm).1 == OK
    ensures var l' := Tracked(l, t, cap, pm).0;
            var slot := SlotExtent(Extracted(l.kernel.free, SLOT_REQUEST).ext);
            && ListOk(l'.kernel.free)
            && CapSum(l'.kernel.free) == CapSum(l.kernel.free) + (if t == KernelFree then cap else 0)
            && Adds(l'.kernel.free, l.kernel.free, slot.base, PAGE_SIZE, HIGH_MEM, {})
  {
    hide Tracked, ListOk, WellFormed, Inserted, Extracted, SlotExtent, CanRecord;
    TrackedIs(l, t, cap, pm);
    SlotTaken(l.kernel);
    var x := Extracted(l.kernel.free, SLOT_REQUEST);
    GrowKeeps(x.hdrs, cap);
    RemainderReturns(l.kernel.free, Grow(WithFree(l, x.hdrs), t, cap).kernel.free, x.ext);
  }

  lemma {:induction false} TrackedAlloc(l: Lists, t: Target, cap: nat, pm: Pages)
    requires WellKept(l.kernel) && Tracked(l, t, cap, pm).1 == OK
    ensures var l' := Tracked(l, t, cap, pm).0;
            var slot := SlotExtent(Extracted(l.kernel.free, SLOT_REQUEST).ext);
            && ListOk(l'.kernel.alloc)
            && CapSum(l'.kernel.alloc) == CapSum(l.kernel.alloc) + (if t == KernelAlloc then cap else 0)
            && l'.other == (if t == Other then AddHeader(l.other, cap) else l.other)
            && Adds(l.kernel.alloc, l'.kernel.alloc, slot.base, PAGE_SIZE, SLOT_FLAGS, ATTR_WRITABLE)
  {
    hide Tracked, ListOk, WellFormed, Inserted, Extracted, CanRecord;
    TrackedIs(l, t, cap, pm);
    SlotTaken(l.kernel);
    var x := Extracted(l.kernel.free, SLOT_REQUEST);
    SlotIsTopPage(x.ext);
    GrowKeeps(l.kernel.alloc, cap);
    AllocRecords(Grow(WithFree(l, x.hdrs), t, cap).kernel.alloc, SlotExtent(x.ext));
  }

  lemma {:induction false} SlotFrom(s: Space)
    requires WellKept(s) && Extracted(s.free, SLOT_REQUEST).status == OK
    ensures exists p :: ValidPos(s.free, p) && Fits(At(s.free, p), SLOT_REQUEST)
              && SlotExtent(Extracted(s.free, SLOT_REQUEST).ext).base == End(At(s.free, p)) - PAGE_SIZE
  {
    hide ListOk, WellFormed, Inserted, Extracted;
    SlotTaken(s);
    ExtractMoves(s.free, SLOT_REQUEST);
    ExtractIsBestFit(s.free, SLOT_REQUEST);
    SlotIsTopPage(Extracted(s.free, SLOT_REQUEST).ext);
  }

  lemma SlotFlags()
    ensures TypeOk(SLOT_FLAGS) && Region(SLOT_FLAGS) == HIGH_MEM
  {
  }

  lemma {:induction false} TrackedEffect(l: Lists, t: Target, cap: nat, pm: Pages)
    requires WellKept(l.kernel) && Tracked(l, t, cap, pm).1 == OK
    ensures var l' := Tracked(l, t, cap, pm).0;
            && ListOk(l'.kernel.free) && ListOk(l'.kernel.alloc)
            && Grown(l, l', t, cap)
            && AllocEffect(l.kernel, l'.kernel, SlotExtent(Extracted(l.kernel.free, SLOT_REQUEST).ext).base,
                           PAGE_SIZE, SLOT_FLAGS, ATTR_WRITABLE)
  {
    hide Tracked, ListOk, WellFormed, Inserted, Extracted, CanRecord, Adds, SlotExtent, Valid, Region, TypeOk;
    SlotFlags();
    TrackedFree(l, t, cap, pm);
    TrackedAlloc(l, t, cap, pm);
  }

  lemma {:induction false} TrackedOk(l: Lists, t: Target, cap: nat, pm: Pages)
    requires WellKept(l.kernel) && Tracked(l, t, cap, pm).1 == OK
    ensures var l' := Tracked(l, t, cap, pm).0;
            && WellKept(l'.kernel)
            && (forall a: int :: Cover(l'.kernel, a) == Cover(l.kernel, a))
            && Grown(l, l', t, cap)
            && Extracted(l.kernel.free, SLOT_REQUEST).status == OK
            && AllocEffect(l.kernel, l'.kernel, SlotExtent(Extracted(l.kernel.free, SLOT_REQUEST).ext).base,
                           PAGE_SIZE, SLOT_FLAGS, ATTR_WRITABLE)
  {
    TrackedIs(l, t, cap, pm);
    TrackedEffect(l, t, cap, pm);
    SlotFlags();
    hide Tracked, ListOk, Extracted, CanRecord, SlotExtent, WellKept, AllocEffect, Grown, Region, TypeOk, Inserted;
    hide Grow;
    AllocEffectKeeps(l.kernel, Tracked(l, t, cap, pm).0.kernel,
                          SlotExtent(Extracted(l.kernel.free, SLOT_REQUEST).ext).base,
                          PAGE_SIZE, SLOT_FLAGS, ATTR_WRITABLE);
  }

  /** VM_SLOT_ALLOC_FLAGS is VM_HIGH_MEM | VM_ALLOCATED | VM_PERMANENT | VM_LOCKED, by the positions of
      their bits. */
  lemma SlotFlagsAre()
    ensures SLOT_FLAGS == 0x2 + 0x8 + 0x10 + 0x20 && IsLocked(SLOT_FLAGS)
  {
  }

  /** The page that a list was enlarged with can never be freed. */
  lemma SlotPageStays(l: Lists, t: Target, cap: nat, pm: Pages)
    requires Valid(l.kernel) && 0 < cap && Tracked(l, t, cap, pm).1 == OK
    ensures var page := SlotExtent(Extracted(l.kernel.free, SLOT_REQUEST).ext).base;
            page % 0x1000 == 0 && page <= TWO64 - 0x1000 ==>
              Freed(Tracked(l, t, cap, pm).0.kernel, page, 0x1000).1 == Refused
  {
    hide Tracked, Extracted, WellKept, Grown, Fits, Freed, SlotExtent, IsLocked;
    SlotFlagsAre();
    TrackingIsAllOrNothing(l, t, cap, pm);
    TrackedOk(l, t, cap, pm);
    var page := SlotExtent(Extracted(l.kernel.free, SLOT_REQUEST).ext).base;
    var k := Tracked(l, t, cap, pm).0.kernel;
    var q := Exactly(Attr(SLOT_FLAGS, ATTR_WRITABLE));
    assert Total(k.alloc, page, q) == Total(l.kernel.alloc, page, q)
      + Range(page, PAGE_SIZE, SLOT_FLAGS, ATTR_WRITABLE, page, q);
    if page % 0x1000 == 0 && page <= TWO64 - 0x1000 {
      LockedStays(k, page, 0x1000, SLOT_FLAGS, ATTR_WRITABLE);
    }
  }

  /** Growing a list never loses an address: free and allocated memory together cover what they
      covered, on every path through vm_extent_alloc_slot; and when the allocated list grows by
      two slots or more at a time, the call never ends with VM_NOENT. */
  lemma AllocSlotConserves(l: Lists, t: Target, cap: nat, allocCap: nat, pm: seq<Pages>)
    requires WellKept(l.kernel) && 0 < cap && 1 < allocCap && |pm| == 3
    ensures var (l', st) := AllocSlot(l, t, cap, allocCap, pm);
            && WellKept(l'.kernel) && (Valid(l.kernel) ==> Valid(l'.kernel))
            && (forall a: int :: Cover(l'.kernel, a) == Cover(l.kernel, a))
            && st != NOENT
            && (st == OK ==> CapSum(TargetList(l', t)) >= CapSum(TargetList(l, t)) + cap)
  {
    hide Tracked, ListOk, Valid;
    CoverDecides(l.kernel, AllocSlot(l, t, cap, allocCap, pm).0.kernel);
    TrackingConserves(l, t, cap, pm[0]);
    var (l1, st1) := Tracked(l, t, cap, pm[0]);
    if st1 == NOENT {
      NoentMeansFull(l, t, cap, pm[0]);
      TrackingConserves(l1, KernelAlloc, allocCap, pm[1]);
      NeverNoentForAlloc(l1, allocCap, pm[1]);
      var (l2, st2) := Tracked(l1, KernelAlloc, allocCap, pm[1]);
      if st2 == OK {
        TrackingConserves(l2, t, cap, pm[2]);
        SlotLeftOver(l1, allocCap, pm[1]);
        NoentMeansFull(l2, t, cap, pm[2]);
      }
    }
  }

  lemma TrackingConserves(l: Lists, t: Target, cap: nat, pm: Pages)
    requires WellKept(l.kernel) && 0 < cap
    ensures var (l', st) := Tracked(l, t, cap, pm);
            && WellKept(l'.kernel)
            && (forall a: int :: Cover(l'.kernel, a) == Cover(l.kernel, a))
            && (st == OK ==> CapSum(TargetList(l', t)) >= CapSum(TargetList(l, t)) + cap)
            && CapSum(TargetList(l', t)) >= CapSum(TargetList(l, t))
            && (t != KernelAlloc ==> CapSum(l'.kernel.alloc) == CapSum(l.kernel.alloc))
            && (t == KernelAlloc ==> l'.other == l.other && CapSum(l'.kernel.free) == CapSum(l.kernel.free))
  {
    hide Tracked, ListOk;
    TrackingIsAllOrNothing(l, t, cap, pm);
    var (l', st) := Tracked(l, t, cap, pm);
    if st == OK {
      CapConcat(l.other, [Hdr(cap, cap, [])]);
      assert CapSum([Hdr(cap, cap, [])]) == cap;
      var p :| ValidPos(l.kernel.free, p) && Fits(At(l.kernel.free, p), SLOT_REQUEST)
               && AllocEffect(l.kernel, l'.kernel, End(At(l.kernel.free, p)) - PAGE_SIZE, PAGE_SIZE,
                              SLOT_FLAGS, ATTR_WRITABLE);
      var base := End(At(l.kernel.free, p)) - PAGE_SIZE;
      AllocEffectKeeps(l.kernel, l'.kernel, base, PAGE_SIZE, SLOT_FLAGS, ATTR_WRITABLE);
    }
  }

  /** Some extent of the free list is high memory and holds a page. */
  ghost predicate PageThere(hs: seq<Hdr>) {
    exists p :: ValidPos(hs, p) && Region(At(hs, p).flags) == HIGH_MEM && At(hs, p).length >= 0x1000
  }

  /** The page has a place in the allocated list: a slot, or an extent it can be joined to; and a list
      that is itself enlarged brings one along. */
  predicate PlaceThere(l: Lists, t: Target) {
    || t == KernelAlloc || AvailSum(l.kernel.alloc) > 0
    || JoinableList(l.kernel.alloc, SlotExtent(Extracted(l.kernel.free, SLOT_REQUEST).ext))
  }

  /** How vm_extent_alloc_tracking ends: without a free page it is VM_NOMEM, without a place for it
      VM_NOENT, when the page manager refuses VM_FAIL, and otherwise VM_OK. */
  lemma TrackedEnds(l: Lists, t: Target, cap: nat, pm: Pages)
    requires WellKept(l.kernel) && 0 < cap
    ensures Tracked(l, t, cap, pm).1 ==
              if !PageThere(l.kernel.free) then NOMEM
              else if !PlaceThere(l, t) then NOENT
              else if pm.backend && pm.storage then OK else FAIL
  {
    ExtractIsBestFit(l.kernel.free, SLOT_REQUEST);
    HighIsFits(l.kernel.free);
    if Extracted(l.kernel.free, SLOT_REQUEST).status == OK && CanRecord(l, t, SlotExtent(Extracted(l.kernel.free,
      SLOT_REQUEST).ext)) {
      RecordingSucceeds(l, t, cap);
    }
    hide Inserted, Extracted, JoinableList, WellKept, SlotExtent, PageThere;
  }

  lemma HighIsFits(hs: seq<Hdr>)
    ensures PageThere(hs) <==> exists p :: ValidPos(hs, p) && Fits(At(hs, p), SLOT_REQUEST)
  {
    assert Region(HIGH_MEM) == HIGH_MEM;
    forall p | ValidPos(hs, p)
      ensures Fits(At(hs, p), SLOT_REQUEST) <==>
                Region(At(hs, p).flags) == HIGH_MEM && At(hs, p).length >= PAGE_SIZE
    {
    }
  }

  lemma NoentMeansFull(l: Lists, t: Target, cap: nat, pm: Pages)
    ensures Tracked(l, t, cap, pm).1 == NOENT ==> AvailSum(l.kernel.alloc) == 0 && t != KernelAlloc
  {
    hide Extracted, Inserted, JoinableList;
  }

  lemma NeverNoentForAlloc(l: Lists, cap: nat, pm: Pages)
    ensures Tracked(l, KernelAlloc, cap, pm).1 != NOENT
  {
    hide Extracted, Inserted, JoinableList;
  }

  /** After the allocated list has grown by cap slots, at most one of them is taken. */
  lemma SlotLeftOver(l: Lists, cap: nat, pm: Pages)
    requires WellKept(l.kernel) && 1 < cap && Tracked(l, KernelAlloc, cap, pm).1 == OK
    ensures AvailSum(Tracked(l, KernelAlloc, cap, pm).0.kernel.alloc) > 0
  {
    hide Extracted, Inserted, JoinableList;
    SlotTaken(l.kernel);
    var x := Extracted(l.kernel.free, SLOT_REQUEST);
    SlotIsTopPage(x.ext);
    GrowKeeps(l.kernel.alloc, cap);
    var g := AddHeader(l.kernel.alloc, cap);
    InsertKeepsHeaders(g, SlotExtent(x.ext));
  }

  // ---------------------------------------------------------------- the methods

  /** The role of list lh: the source compares its address with the kernel context's lists. */
  function Role(kernel: VmContext, lh: ExtentList): Target {
    if lh == kernel.free then KernelFree else if lh == kernel.alloc then KernelAlloc else Other
  }

  function View(kernel: VmContext, lh: ExtentList): Lists
    reads kernel.free, kernel.alloc, lh
  {
    Lists(kernel.State(), if Role(kernel, lh) == Other then lh.hdrs else [])
  }

  method AllocTracking(kernel: VmContext, lh: ExtentList, cap: nat, pm: Pages) returns (st: Status)
    requires kernel.free != kernel.alloc
    modifies kernel.free, kernel.alloc, lh
    ensures (View(kernel, lh), st) == Tracked(old(View(kernel, lh)), Role(kernel, lh), cap, pm)
  {
    var status, orig := kernel.free.Extract(SLOT_REQUEST);
    if status != OK {
      return NOMEM;
    }
    var rem := orig.(length := Sub64(orig.length, PAGE_SIZE));
    var slot := SlotExtent(orig);
    if lh != kernel.alloc {
      var avail := kernel.alloc.Avail(1);
      if avail < 1 {
        var joinable := kernel.alloc.CanTake(slot);
        if !joinable {
          status := kernel.free.Insert(orig);
          return NOENT;
        }
      }
    }
    if pm.backend && pm.storage {
      lh.AddHeader(cap);
      status := kernel.alloc.Insert(slot);
    } else {
      status := FAIL;
    }
    if status != OK {
      status := kernel.free.Insert(orig);
      return FAIL;
    }
    if rem.length > 0 {
      status := kernel.free.Insert(rem);
    }
    return OK;
  }

  method GrowList(kernel: VmContext, lh: ExtentList, cap: nat, allocCap: nat, pm: seq<Pages>) returns (st: Status)
    requires kernel.free != kernel.alloc && |pm| == 3
    modifies kernel.free, kernel.alloc, lh
    ensures (View(kernel, lh), st) == AllocSlot(old(View(kernel, lh)), Role(kernel, lh), cap, allocCap, pm)
  {
    hide Tracked;
    st := AllocTracking(kernel, lh, cap, pm[0]);
    if st == NOENT {
      ghost var before := View(kernel, lh);
      ghost var aside := View(kernel, kernel.alloc);
      st := AllocTracking(kernel, kernel.alloc, allocCap, pm[1]);
      OtherIsFrame(before, aside, allocCap, pm[1]);
      OtherUntouched(before, allocCap, pm[1]);
      if st == OK {
        st := AllocTracking(kernel, lh, cap, pm[2]);
      }
    }
  }

  /** Growing the allocated list neither reads nor changes any other context's list. */
  lemma OtherIsFrame(l: Lists, aside: Lists, cap: nat, pm: Pages)
    requires l.kernel == aside.kernel
    ensures Tracked(l, KernelAlloc, cap, pm).0.kernel == Tracked(aside, KernelAlloc, cap, pm).0.kernel
    ensures Tracked(l, KernelAlloc, cap, pm).1 == Tracked(aside, KernelAlloc, cap, pm).1
  {
    hide Extracted, Inserted, JoinableList;
  }

  lemma OtherUntouched(l: Lists, cap: nat, pm: Pages)
    ensures Tracked(l, KernelAlloc, cap, pm).0.other == l.other
  {
    hide Extracted, Inserted, JoinableList;
  }
}
