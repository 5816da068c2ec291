/** vm_space_alloc and vm_space_free (mm/vm_space.c) on the kernel context to the end of their
    retries: when an insertion finds no slot, the list is enlarged by vm_extent_alloc_slot, which
    takes a page from the very space, and the insertion is made again. */
module VmRetries {
  import opened Extents
  import opened ExtentLists
  import opened VmSpace
  import opened VmContexts
  import opened VmTracking

  /** What the page manager answers to the three rounds of one vm_extent_alloc_slot. */
  type Replies = s: seq<Pages> | |s| == 3
    witness [Pages(true, true), Pages(true, true), Pages(true, true)]

  /** vm_extent_alloc_slot on one of the kernel context's own lists. */
  function Enlarged(s: Space, t: Target, pm: Replies): (Space, Status) {
    var (l, st) := AllocSlot(Lists(s, []), t, PAGE_SLOTS, PAGE_SLOTS, pm);
    (l.kernel, st)
  }

  /** The right piece. When it finds no slot, the list is enlarged, and then the source inserts
      the left piece, which is in the list already, and not the right one. */
  function RightPiece(s: Space, cut: SplitResult, pm: Replies): (Space, Status) {
    if cut.status <= 0 then (s, OK)
    else
      var (f, st) := Inserted(s.free, cut.right);
      if st != NOMEM then (Space(f, s.alloc), OK)
      else
        var (s1, st) := Enlarged(Space(f, s.alloc), KernelFree, pm);
        if st != OK then (s1, st)
        else
          var (f, st) := Inserted(s1.free, cut.left);
          (Space(f, s1.alloc), st)
  }

  /** The allocated range. */
  function Record(s: Space, e: Extent, pm: Replies): (Space, Status) {
    var (a, st) := Inserted(s.alloc, e);
    if st != NOMEM then (Space(s.free, a), st)
    else
      var (s1, st) := Enlarged(Space(s.free, a), KernelAlloc, pm);
      if st != OK then (s1, st)
      else
        var (a, st) := Inserted(s1.alloc, e);
        (Space(s1.free, a), st)
  }

  /** The part of vm_space_alloc after the extent found has been taken off the free list. Undo
      stands for vm_space_undo, at which the model stops. */
  function Placing(s: Space, found: Extent, base: u64, len: u64, flags: u32, prot: Bits, first: Replies,
                   second: Replies): (Space, Outcome)
  {
    var cut := Split(found, base, len);
    if cut.status < 0 then
      var (f, st) := Inserted(s.free, found);
      (Space(f, s.alloc), if st == NOMEM then Halted else Refused)
    else
      var (f, st) := Inserted(s.free, cut.left);
      if st == NOMEM then (Space(f, s.alloc), Halted)
      else
        var (s1, st) := RightPiece(Space(f, s.alloc), cut, first);
        if st != OK then (s1, Undo)
        else
          var (s2, st) := Record(s1, Extent(base, len, WithRegion(flags, cut.left.flags), prot), second);
          (s2, if st == OK then Placed(base) else Undo)
  }

  /** vm_space_alloc. */
  function Allocating(s: Space, ctxFlags: u32, addr: u64, len: u64, flags: u32, prot: Bits, first: Replies,
                      second: Replies): (Space, Outcome)
  {
    if AllocRefusedEarly(ctxFlags, addr, flags) then (s, Refused)
    else
      var req := AllocRequest(ctxFlags, addr, len, flags);
      var x := Extracted(s.free, req);
      if x.status != OK then (s, Refused)
      else
        Placing(Space(x.hdrs, s.alloc), x.ext, if addr == BASE_AUTO then x.ext.base else req.base,
                req.length, EffectiveFlags(ctxFlags, addr, flags), prot, first, second)
  }

  /** The right piece of what is freed: here the piece inserted after the retry is the right one. */
  function RestPiece(s: Space, cut: SplitResult, pm: Replies): (Space, Status) {
    if cut.status <= 0 then (s, OK)
    else
      var (a, st) := Inserted(s.alloc, cut.right);
      if st != NOMEM then (Space(s.free, a), OK) else Record(s, cut.right, pm)
  }

  /** The freed range. */
  function GiveBack(s: Space, e: Extent, pm: Replies): (Space, Status) {
    var (f, st) := Inserted(s.free, e);
    if st != NOMEM then (Space(f, s.alloc), st)
    else
      var (s1, st) := Enlarged(Space(f, s.alloc), KernelFree, pm);
      if st != OK then (s1, st)
      else
        var (f, st) := Inserted(s1.free, e);
        (Space(f, s1.alloc), st)
  }

  /** The part of vm_space_free after the extent found has been taken off the allocated list. */
  function Releasing(s: Space, found: Extent, base: u64, len: u64, first: Replies, second: Replies): (Space, Outcome) {
    if IsLocked(found.flags) then
      (Space(s.free, Inserted(s.alloc, found).0), Refused)
    else
      var cut := Split(found, base, len);
      if cut.status < 0 then
        var (a, st) := Inserted(s.alloc, found);
        (Space(s.free, a), if st == NOMEM then Halted else Refused)
      else
        var (a, st) := Inserted(s.alloc, cut.left);
        if st == NOMEM then (Space(s.free, a), Halted)
        else
          var (s1, st) := RestPiece(Space(s.free, a), cut, first);
          if st != OK then (s1, Undo)
          else
            var (s2, st) := GiveBack(s1, Extent(base, len, Region(cut.left.flags), {}), second);
            (s2, if st == OK then Done(cut.left.flags, cut.left.prot) else Undo)
  }

  /** vm_space_free. */
  function Freeing(s: Space, addr: u64, len: u64, first: Replies, second: Replies): (Space, Outcome) {
    if addr == BASE_AUTO then (s, Refused)
    else
      var x := Extracted(s.alloc, Extent(PageBase(addr), PageLen(len), 0, {}));
      if x.status != OK then (s, Refused)
      else Releasing(Space(s.free, x.hdrs), x.ext, PageBase(addr), PageLen(len), first, second)
  }

  // ---------------------------------------------------------------- enlarging a list

  /** Enlarging only moves memory from the free map to the allocated one. */
  lemma TrackingOnlyMoves(l: Lists, t: Target, pm: Pages)
    requires WellKept(l.kernel)
    ensures var l' := Tracked(l, t, PAGE_SLOTS, pm).0;
            && WellKept(l'.kernel)
            && forall a: int, q :: Total(l'.kernel.alloc, a, q) >= Total(l.kernel.alloc, a, q)
  {
    hide Tracked, WellKept, Fits, Grown;
    TrackingIsAllOrNothing(l, t, PAGE_SLOTS, pm);
  }

  lemma SlotsOnlyMove(l: Lists, t: Target, pm: Replies)
    requires WellKept(l.kernel)
    ensures forall a: int, q ::
              Total(AllocSlot(l, t, PAGE_SLOTS, PAGE_SLOTS, pm).0.kernel.alloc, a, q) >= Total(l.kernel.alloc, a, q)
  {
    hide Tracked, WellKept;
    TrackingOnlyMoves(l, t, pm[0]);
    var (l1, st1) := Tracked(l, t, PAGE_SLOTS, pm[0]);
    if st1 == NOENT {
      TrackingOnlyMoves(l1, KernelAlloc, pm[1]);
      var (l2, st2) := Tracked(l1, KernelAlloc, PAGE_SLOTS, pm[1]);
      if st2 == OK {
        TrackingOnlyMoves(l2, t, pm[2]);
      }
    }
  }

  /** The enlarged list has a slot left, although the page it lives in had to be recorded and the
      rest of the extent it was cut from put back. */
  lemma TrackingLeavesSlot(l: Lists, t: Target, pm: Pages)
    requires WellKept(l.kernel) && t != Other && Tracked(l, t, PAGE_SLOTS, pm).1 == OK
    ensures AvailSum(TargetList(Tracked(l, t, PAGE_SLOTS, pm).0, t)) > 0
  {
    if t == KernelAlloc {
      SlotLeftOver(l, PAGE_SLOTS, pm);
    } else {
      TrackedIs(l, t, PAGE_SLOTS, pm);
      hide Tracked, Inserted, Extracted, ListOk, CanRecord, SlotExtent;
      SlotTaken(l.kernel);
      var x := Extracted(l.kernel.free, SLOT_REQUEST);
      GrowKeeps(x.hdrs, PAGE_SLOTS);
      InsertTakesOne(AddHeader(x.hdrs, PAGE_SLOTS), x.ext.(length := Sub64(x.ext.length, PAGE_SIZE)));
    }
  }

  lemma SlotsLeaveOne(l: Lists, t: Target, pm: Replies)
    requires WellKept(l.kernel) && t != Other && AllocSlot(l, t, PAGE_SLOTS, PAGE_SLOTS, pm).1 == OK
    ensures AvailSum(TargetList(AllocSlot(l, t, PAGE_SLOTS, PAGE_SLOTS, pm).0, t)) > 0
  {
    hide Tracked, WellKept, AvailSum;
    var (l1, st1) := Tracked(l, t, PAGE_SLOTS, pm[0]);
    if st1 == NOENT {
      TrackingOnlyMoves(l, t, pm[0]);
      TrackingOnlyMoves(l1, KernelAlloc, pm[1]);
      TrackingLeavesSlot(Tracked(l1, KernelAlloc, PAGE_SLOTS, pm[1]).0, t, pm[2]);
    } else {
      TrackingLeavesSlot(l, t, pm[0]);
    }
  }

  lemma EnlargedKeeps(s: Space, t: Target, pm: Replies)
    requires WellKept(s) && t != Other
    ensures var (s', st) := Enlarged(s, t, pm);
            && WellKept(s')
            && (forall a: int :: Cover(s', a) == Cover(s, a))
            && (forall a: int, q :: Total(s'.alloc, a, q) >= Total(s.alloc, a, q))
            && st != NOENT && (st == OK ==> AvailSum(if t == KernelFree then s'.free else s'.alloc) > 0)
  {
    hide WellKept, AllocSlot, Cover, AvailSum;
    var l := Lists(s, []);
    AllocSlotConserves(l, t, PAGE_SLOTS, PAGE_SLOTS, pm);
    SlotsOnlyMove(l, t, pm);
    if AllocSlot(l, t, PAGE_SLOTS, PAGE_SLOTS, pm).1 == OK {
      SlotsLeaveOne(l, t, pm);
    }
  }

  // ---------------------------------------------------------------- one insertion

  predicate FreeExtent(e: Extent) {
    WellFormed(e) && e.prot == {} && e.flags == Region(e.flags)
  }

  predicate AllocExtent(e: Extent) {
    WellFormed(e) && TypeOk(e.flags)
  }

  /** An insertion that succeeds adds one to the cover of its range. */
  lemma InsertFree(s: Space, e: Extent)
    requires WellKept(s) && FreeExtent(e)
    ensures var (f, st) := Inserted(s.free, e);
            && st in {OK, NOMEM} && (st == NOMEM ==> f == s.free) && (AvailSum(s.free) > 0 ==> st == OK)
            && (st == OK ==>
                  && WellKept(Space(f, s.alloc))
                  && (forall a: int :: Cover(Space(f, s.alloc), a) == Cover(s, a) + Cov(e, a, Any))
                  && (forall a: int, q :: Total(f, a, q) == Total(s.free, a, q) + Cov(e, a, q)))
  {
    hide Inserted, ListOk, AvailSum, AllocAttrs;
    InsertStatus(s.free, e);
    var (f, st) := Inserted(s.free, e);
    if st == OK {
      InsertAddsExactly(s.free, e);
      forall a: int, at | Total(f, a, Exactly(at)) > 0 ensures at.prot == {} && at.flags == Region(at.flags) {
        assert Total(f, a, Exactly(at)) == Total(s.free, a, Exactly(at)) + Cov(e, a, Exactly(at));
      }
    }
  }

  lemma InsertAlloc(s: Space, e: Extent)
    requires WellKept(s) && AllocExtent(e)
    ensures var (al, st) := Inserted(s.alloc, e);
            && st in {OK, NOMEM} && (st == NOMEM ==> al == s.alloc) && (AvailSum(s.alloc) > 0 ==> st == OK)
            && (st == OK ==>
                  && WellKept(Space(s.free, al))
                  && (forall a: int :: Cover(Space(s.free, al), a) == Cover(s, a) + Cov(e, a, Any))
                  && (forall a: int, q :: Total(al, a, q) == Total(s.alloc, a, q) + Cov(e, a, q)))
  {
    hide Inserted, ListOk, AvailSum, FreeAttrs;
    InsertStatus(s.alloc, e);
    var (al, st) := Inserted(s.alloc, e);
    if st == OK {
      InsertAddsExactly(s.alloc, e);
      forall a: int, at | Total(al, a, Exactly(at)) > 0 ensures TypeOk(at.flags) {
        assert Total(al, a, Exactly(at)) == Total(s.alloc, a, Exactly(at)) + Cov(e, a, Exactly(at));
      }
    }
  }

  /** With the retry: afterwards the allocated list holds the range, and holds all it held. */
  lemma RecordKeeps(s: Space, e: Extent, pm: Replies)
    requires WellKept(s) && AllocExtent(e)
    ensures var (s', st) := Record(s, e, pm);
            && WellKept(s') && st != NOENT
            && (st != OK ==> forall a: int :: Cover(s', a) == Cover(s, a))
            && (st == OK ==>
                  && (forall a: int :: Cover(s', a) == Cover(s, a) + Cov(e, a, Any))
                  && (forall a: int, q :: Total(s'.alloc, a, q) >= Total(s.alloc, a, q) + Cov(e, a, q)))
  {
    hide Inserted, Enlarged, WellKept, Cover, AvailSum, AllocExtent;
    InsertAlloc(s, e);
    if Inserted(s.alloc, e).1 == NOMEM {
      EnlargedKeeps(s, KernelAlloc, pm);
      InsertAlloc(Enlarged(s, KernelAlloc, pm).0, e);
    }
  }

  lemma GiveBackKeeps(s: Space, e: Extent, pm: Replies)
    requires WellKept(s) && FreeExtent(e)
    ensures var (s', st) := GiveBack(s, e, pm);
            && WellKept(s')
            && (st == OK ==>
                  && (forall a: int :: Cover(s', a) == Cover(s, a) + Cov(e, a, Any))
                  && (forall a: int, q :: Total(s'.free, a, q) >= Cov(e, a, q))
                  && (forall a: int, q :: Total(s'.alloc, a, q) >= Total(s.alloc, a, q)))
  {
    hide Inserted, Enlarged, WellKept, Cover, AvailSum, FreeExtent;
    InsertFree(s, e);
    if Inserted(s.free, e).1 == NOMEM {
      EnlargedKeeps(s, KernelFree, pm);
      InsertFree(Enlarged(s, KernelFree, pm).0, e);
    }
  }

  // ---------------------------------------------------------------- allocating

  /** The right piece finds no slot: neither can it be joined to anything nor is one free. */
  predicate RightLost(s: Space, cut: SplitResult) {
    cut.status > 0 && Inserted(s.free, cut.right).1 == NOMEM
  }

  lemma RightPieceKeeps(s: Space, cut: SplitResult, pm: Replies)
    requires WellKept(s)
    requires cut.status > 0 ==> FreeExtent(cut.left) && FreeExtent(cut.right)
    requires cut.status <= 0 ==> cut.right.length == 0
    ensures var (s', st) := RightPiece(s, cut, pm);
            && WellKept(s')
            && (forall a: int, q :: Total(s'.alloc, a, q) >= Total(s.alloc, a, q))
            && (st == OK ==> forall a: int ::
                  Cover(s', a) == Cover(s, a) + Cov(if RightLost(s, cut) then cut.left else cut.right, a, Any))
  {
    hide Inserted, Enlarged, WellKept, Cover, AvailSum, FreeExtent;
    if cut.status > 0 {
      InsertFree(s, cut.right);
      if RightLost(s, cut) {
        EnlargedKeeps(s, KernelFree, pm);
        InsertFree(Enlarged(s, KernelFree, pm).0, cut.left);
      }
    }
  }

  /** What placing adds to the cover, given the extent that was found: nothing is lost, unless the
      right piece was, and then the left one is there twice. */
  lemma PlacingKeeps(s: Space, found: Extent, base: u64, len: u64, flags: u32, prot: Bits, first: Replies,
                     second: Replies)
    requires WellKept(s) && FreeExtent(found) && AvailSum(s.free) > 0 && TypeOk(flags)
    requires 0 < len && base + len <= TWO64 && InRange(found.base, found.length, base, len)
    ensures var (s', out) := Placing(s, found, base, len, flags, prot, first, second);
            var cut := Split(found, base, len);
            var lost := RightLost(Space(Inserted(s.free, cut.left).0, s.alloc), cut);
            && WellKept(s') && out in {Placed(base), Undo}
            && (out == Placed(base) ==>
                  && (forall a: int :: Cover(s', a) ==
                        Cover(s, a) + Range(base, len, found.flags, found.prot, a, Any) + Cov(cut.left, a, Any)
                        + Cov(if lost then cut.left else cut.right, a, Any))
                  && (forall a: int, q :: Total(s'.alloc, a, q) >=
                        Total(s.alloc, a, q) + Range(base, len, WithRegion(flags, found.flags), prot, a, q)))
  {
    hide Inserted, Enlarged, WellKept, Cover, AvailSum, WithRegion, RightPiece, Record, InRange, RightLost;
    var cut := Split(found, base, len);
    CutPieces(found, base, len);
    WithRegionKeeps(flags, found.flags);
    var e := Extent(base, len, WithRegion(flags, found.flags), prot);
    LeftPiece(s, cut.left);
    var s1 := Space(Inserted(s.free, cut.left).0, s.alloc);
    RightPieceKeeps(s1, cut, first);
    var (s2, st) := RightPiece(s1, cut, first);
    RecordKeeps(s2, e, second);
  }

  lemma LeftPiece(s: Space, e: Extent)
    requires WellKept(s) && RegionOk(e.flags) && (e.length == 0 || (FreeExtent(e) && AvailSum(s.free) > 0))
    ensures var (f, st) := Inserted(s.free, e);
            && st in {OK, NOENT} && WellKept(Space(f, s.alloc))
            && forall a: int :: Cover(Space(f, s.alloc), a) == Cover(s, a) + Cov(e, a, Any)
  {
    hide WellKept, Cover, AvailSum;
    if e.length != 0 {
      InsertFree(s, e);
    }
  }

  lemma CutPieces(found: Extent, base: u64, len: u64)
    requires FreeExtent(found) && 0 < len && base + len <= TWO64 && InRange(found.base, found.length, base, len)
    ensures var cut := Split(found, base, len);
            && 0 <= cut.status && cut.left.flags == found.flags
            && (cut.left.length == 0 || FreeExtent(cut.left))
            && (cut.status > 0 ==> FreeExtent(cut.left) && FreeExtent(cut.right))
            && (cut.status <= 0 ==> cut.right.length == 0)
            && Region(found.flags) == found.flags
            && WellFormed(Extent(base, len, found.flags, {}))
  {
    SplitConserves(found, base, len);
  }

  lemma TakenKeeps(s: Space, hdrs: seq<Hdr>, e: Extent)
    requires WellKept(s) && ListOk(hdrs)
    requires forall a: int, q :: Total(hdrs, a, q) == Total(s.free, a, q) - Cov(e, a, q)
    ensures WellKept(Space(hdrs, s.alloc))
    ensures forall a: int :: Cover(s, a) == Cover(Space(hdrs, s.alloc), a) + Cov(e, a, Any)
  {
    hide ListOk;
    forall a: int, at | Total(hdrs, a, Exactly(at)) > 0 ensures at.prot == {} && at.flags == Region(at.flags) {
      assert Total(s.free, a, Exactly(at)) > 0;
    }
  }

  /** How an allocation cuts the extent it finds. */
  function CutOf(s: Space, ctxFlags: u32, addr: u64, len: u64, flags: u32): SplitResult {
    var req := AllocRequest(ctxFlags, addr, len, flags);
    var x := Extracted(s.free, req);
    Split(x.ext, if addr == BASE_AUTO then x.ext.base else req.base, req.length)
  }

  /** The allocation cuts an extent in two and the list has no slot for the right piece: the
      branch that inserts the left piece again. */
  predicate LosesRight(s: Space, ctxFlags: u32, addr: u64, len: u64, flags: u32) {
    var hdrs := Extracted(s.free, AllocRequest(ctxFlags, addr, len, flags)).hdrs;
    var cut := CutOf(s, ctxFlags, addr, len, flags);
    RightLost(Space(Inserted(hdrs, cut.left).0, s.alloc), cut)
  }

  /** The whole of vm_space_alloc, retries included, without any assumption about slots. It is
      refused and changes nothing, or ends in vm_space_undo, or it succeeds: then the range is
      allocated as asked, all that was allocated still is, and the space is valid, with the union
      of the two maps unchanged, exactly when the right piece found a slot at once. Otherwise the
      right piece is gone and the left one is there twice. */
  lemma AllocatingIff(s: Space, ctxFlags: u32, addr: u64, len: u64, flags: u32, prot: Bits, first: Replies,
                      second: Replies)
    requires Valid(s) && NoWrap(addr, len)
    ensures var (s', out) := Allocating(s, ctxFlags, addr, len, flags, prot, first, second);
            && (out.Placed? || out.Refused? || out.Undo?)
            && (out.Refused? ==> s' == s)
            && (out.Refused? <==>
                  || AllocRefusedEarly(ctxFlags, addr, flags)
                  || Extracted(s.free, AllocRequest(ctxFlags, addr, len, flags)).status != OK)
            && (out.Placed? ==>
                  && (addr != BASE_AUTO ==> out.addr == PageBase(addr))
                  && (Valid(s') <==> !LosesRight(s, ctxFlags, addr, len, flags))
                  && (Valid(s') ==> forall a: int :: Cover(s', a) == Cover(s, a))
                  && (!Valid(s') ==> forall a: int ::
                        var cut := CutOf(s, ctxFlags, addr, len, flags);
                        Cover(s', a) + Cov(cut.right, a, Any) == Cover(s, a) + Cov(cut.left, a, Any))
                  && (forall a: int, q :: Total(s'.alloc, a, q) >= Total(s.alloc, a, q)
                        + Range(out.addr, PageLen(len), GrantedFlags(s, ctxFlags, addr, len, flags), prot, a, q)))
  {
    hide Inserted, Extracted, WellKept, Cover, AvailSum, EffectiveFlags, Placing, InRange, PageLen, Region, TypeOk;
    var req := AllocRequest(ctxFlags, addr, len, flags);
    var x := Extracted(s.free, req);
    if !AllocRefusedEarly(ctxFlags, addr, flags) && x.status == OK {
      FoundFits(s, ctxFlags, addr, len, flags);
      TakenKeeps(s, x.hdrs, x.ext);
      var base := if addr == BASE_AUTO then x.ext.base else req.base;
      var t := Space(x.hdrs, s.alloc);
      PlacingKeeps(t, x.ext, base, req.length, EffectiveFlags(ctxFlags, addr, flags), prot, first, second);
      var (s', out) := Allocating(s, ctxFlags, addr, len, flags, prot, first, second);
      if out.Placed? {
        Balance(s, t, s', x.ext, base, req.length, LosesRight(s, ctxFlags, addr, len, flags));
      }
    }
  }

  /** It is refused exactly when its flags are not acceptable, its length is 0 or cannot be rounded up,
      or no free extent can hold it. */
  lemma AllocatingRefusedIff(s: Space, ctxFlags: u32, addr: u64, len: u64, flags: u32, prot: Bits, first: Replies,
                             second: Replies)
    requires Valid(s) && NoWrap(addr, len)
    ensures Allocating(s, ctxFlags, addr, len, flags, prot, first, second).1.Refused? <==>
              !(&& Acceptable(addr, flags)
                && 0 < len <= MAX_LEN
                && if addr == BASE_AUTO then
                     exists p :: ValidPos(s.free, p) && Serves(At(s.free, p), ctxFlags, len, flags)
                   else exists p :: ValidPos(s.free, p) && Contains(At(s.free, p), PageBase(addr), PageLen(len)))
  {
    hide Allocating, Extracted, Serves, PageLen, PageBase, EffectiveFlags, AllocRefusedEarly, Acceptable, AllocRequest;
    hide Valid, NoWrap, LosesRight, CutOf, Cover;
    AllocatingIff(s, ctxFlags, addr, len, flags, prot, first, second);
    AcceptableIff(ctxFlags, addr, flags);
    LenIsPositive(len);
    if addr == BASE_AUTO {
      AutoFoundIff(s.free, ctxFlags, len, flags);
    } else {
      FixedFoundIff(s, ctxFlags, addr, len, flags);
    }
  }

  predicate Within(a: int, base: int, len: int) {
    base <= a < base + len
  }

  /** The caller of vm_space_alloc has all it asked for, in bytes. */
  lemma AllocatingGivesAll(s: Space, ctxFlags: u32, addr: u64, len: u64, flags: u32, prot: Bits, first: Replies,
                           second: Replies)
    requires Valid(s) && NoWrap(addr, len)
    ensures var (s', out) := Allocating(s, ctxFlags, addr, len, flags, prot, first, second);
            var at := Exactly(Attr(GrantedFlags(s, ctxFlags, addr, len, flags), prot));
            out.Placed? ==>
              && 0 < len <= MAX_LEN
              && (addr == BASE_AUTO ==> forall a: int :: Within(a, out.addr, len) ==> Total(s'.alloc, a, at) > 0)
              && (addr != BASE_AUTO && EndsInside(addr, len) ==>
                    forall a: int :: Within(a, addr, len) ==> Total(s'.alloc, a, at) > 0)
  {
    hide Allocating, Valid, PageLen, PageBase, EndsInside, GrantedFlags, NoWrap, LosesRight, Cover, CutOf;
    AllocatingIff(s, ctxFlags, addr, len, flags, prot, first, second);
    PageLenIs(len);
    if Allocating(s, ctxFlags, addr, len, flags, prot, first, second).1.Placed? {
      AllocatingLen(s, ctxFlags, addr, len, flags, prot, first, second);
      PagesHoldIff(addr, len);
      assert forall a: int :: Within(a, addr, len) && EndsInside(addr, len) ==> InPages(addr, len, a);
    }
  }

  lemma AllocatingLen(s: Space, ctxFlags: u32, addr: u64, len: u64, flags: u32, prot: Bits, first: Replies,
                      second: Replies)
    requires Allocating(s, ctxFlags, addr, len, flags, prot, first, second).1.Placed?
    ensures 0 < PageLen(len) && 0 < len
  {
    hide Scan, Placing;
  }

  /** The balance of a placement: the pieces make up what was found, or the left one counts twice
      and the right one not at all. */
  lemma Balance(s: Space, t: Space, s': Space, found: Extent, base: u64, len: u64, lost: bool)
    requires Valid(s) && WellKept(s') && FreeExtent(found)
    requires 0 < len && base + len <= TWO64 && InRange(found.base, found.length, base, len)
    requires lost ==> Split(found, base, len).status > 0
    requires forall a: int :: Cover(s, a) == Cover(t, a) + Cov(found, a, Any)
    requires var cut := Split(found, base, len);
             forall a: int :: Cover(s', a) ==
               Cover(t, a) + Range(base, len, found.flags, found.prot, a, Any) + Cov(cut.left, a, Any)
               + Cov(if lost then cut.left else cut.right, a, Any)
    ensures (Valid(s') <==> !lost) && (Valid(s') ==> forall a: int :: Cover(s', a) == Cover(s, a))
    ensures var cut := Split(found, base, len);
            lost ==> forall a: int :: Cover(s', a) + Cov(cut.right, a, Any) == Cover(s, a) + Cov(cut.left, a, Any)
  {
    hide WellKept, Cover;
    SplitConserves(found, base, len);
    var cut := Split(found, base, len);
    if lost {
      assert Cov(cut.left, cut.left.base, Any) == 1;
      assert Cover(s', cut.left.base) >= 2;
      forall a: int ensures Cover(s', a) + Cov(cut.right, a, Any) == Cover(s, a) + Cov(cut.left, a, Any) {
        assert Cov(found, a, Any) ==
          Cov(cut.left, a, Any) + Range(base, len, found.flags, found.prot, a, Any) + Cov(cut.right, a, Any);
      }
    } else {
      forall a: int ensures Cover(s', a) == Cover(s, a) {
        assert Cov(found, a, Any) ==
          Cov(cut.left, a, Any) + Range(base, len, found.flags, found.prot, a, Any) + Cov(cut.right, a, Any);
      }
    }
  }

  // ---------------------------------------------------------------- undoing

  /** The tests at the head of vm_space_undo, after which it gives up and touches neither list. */
  predicate UndoRefuses(left: Extent, mid: Extent, right: Extent) {
    || Add64(left.base, left.length) > mid.base
    || (right.length > 0 && Add64(mid.base, mid.length) > right.base)
  }

  /** When the start of a longer extent is taken, vm_extent_split returns the rest of it as the
      left piece, and vm_space_undo takes that for a mistake of the caller, but for an extent
      whose end wraps around to 0. In all other cases it goes on. */
  lemma UndoRefusesIff(found: Extent, base: u64, len: u64, flags: u32, prot: Bits)
    requires WellFormed(found) && 0 < len && base + len <= TWO64 && InRange(found.base, found.length, base, len)
    ensures var cut := Split(found, base, len);
            UndoRefuses(cut.left, Extent(base, len, flags, prot), cut.right) <==>
              base == found.base && base + len < End(found) < TWO64
  {
    SplitConserves(found, base, len);
  }

  /** So an allocation that could not be recorded, and had taken the start of a longer extent that
      ends below 2^64, leaves its range neither free nor allocated: it is gone from the space. */
  lemma UndoLosesRange(s: Space, found: Extent, base: u64, len: u64, flags: u32, prot: Bits, first: Replies,
                       second: Replies)
    requires WellKept(s) && FreeExtent(found) && AvailSum(s.free) > 0 && TypeOk(flags)
    requires 0 < len && base + len <= TWO64 && InRange(found.base, found.length, base, len)
    requires base == found.base && base + len < End(found) < TWO64
    requires Placing(s, found, base, len, flags, prot, first, second).1 == Undo
    ensures var s' := Placing(s, found, base, len, flags, prot, first, second).0;
            var cut := Split(found, base, len);
            && UndoRefuses(cut.left, Extent(base, len, WithRegion(flags, found.flags), prot), cut.right)
            && WellKept(s')
            && forall a: int :: Cover(s', a) + Range(base, len, found.flags, found.prot, a, Any)
                                == Cover(s, a) + Cov(found, a, Any)
  {
    hide Inserted, Enlarged, WellKept, Cover, AvailSum, WithRegion, RightPiece, Record, InRange, UndoRefuses;
    var cut := Split(found, base, len);
    UndoRefusesIff(found, base, len, WithRegion(flags, found.flags), prot);
    CutPieces(found, base, len);
    SplitConserves(found, base, len);
    WithRegionKeeps(flags, found.flags);
    StartIsOnePiece(found, base, len);
    LeftPiece(s, cut.left);
    var s1 := Space(Inserted(s.free, cut.left).0, s.alloc);
    RightIs(s1, cut, first);
    RecordKeeps(s1, Extent(base, len, WithRegion(flags, found.flags), prot), second);
  }

  lemma AllocationLosesRange(s: Space, ctxFlags: u32, addr: u64, len: u64, flags: u32, prot: Bits, first: Replies,
                             second: Replies)
    requires Valid(s) && NoWrap(addr, len)
    requires Allocating(s, ctxFlags, addr, len, flags, prot, first, second).1 == Undo
    requires var e := Extracted(s.free, AllocRequest(ctxFlags, addr, len, flags)).ext;
             && (addr == BASE_AUTO || PageBase(addr) == e.base)
             && e.base + PageLen(len) < End(e) < TWO64
    ensures var e := Extracted(s.free, AllocRequest(ctxFlags, addr, len, flags)).ext;
            var s' := Allocating(s, ctxFlags, addr, len, flags, prot, first, second).0;
            && Cover(s, e.base) == 1 && Cover(s', e.base) == 0
            && forall a: int :: Cover(s', a) + Range(e.base, PageLen(len), e.flags, e.prot, a, Any) == Cover(s, a)
  {
    hide Inserted, Extracted, WellKept, AvailSum, EffectiveFlags, Placing, InRange, PageLen, PageBase, Region, TypeOk;
    hide Cover;
    var req := AllocRequest(ctxFlags, addr, len, flags);
    var x := Extracted(s.free, req);
    FoundFits(s, ctxFlags, addr, len, flags);
    TakenKeeps(s, x.hdrs, x.ext);
    UndoLosesRange(Space(x.hdrs, s.alloc), x.ext, x.ext.base, req.length, EffectiveFlags(ctxFlags, addr, flags), prot,
                   first, second);
    assert Cover(s, x.ext.base) <= 1;
  }

  lemma StartIsOnePiece(found: Extent, base: u64, len: u64)
    requires WellFormed(found) && base == found.base && 0 < len && InRange(found.base, found.length, base, len)
    ensures Split(found, base, len).status <= 0
  {
  }

  // ---------------------------------------------------------------- freeing

  lemma RestPieceKeeps(s: Space, cut: SplitResult, pm: Replies)
    requires WellKept(s) && (cut.status > 0 ==> AllocExtent(cut.right)) && (cut.status <= 0 ==> cut.right.length == 0)
    ensures var (s', st) := RestPiece(s, cut, pm);
            && WellKept(s')
            && (st == OK ==>
                  && (forall a: int :: Cover(s', a) == Cover(s, a) + Cov(cut.right, a, Any))
                  && (forall a: int, q :: Total(s'.alloc, a, q) >= Total(s.alloc, a, q) + Cov(cut.right, a, q)))
  {
    hide Inserted, Record, WellKept, Cover, AllocExtent;
    if cut.status > 0 {
      InsertAlloc(s, cut.right);
      RecordKeeps(s, cut.right, pm);
      RecordIs(s, cut.right, pm);
    }
  }

  lemma RecordIs(s: Space, e: Extent, pm: Replies)
    ensures var (a, st) := Inserted(s.alloc, e); st != NOMEM ==> Record(s, e, pm) == (Space(s.free, a), st)
  {
    hide Inserted, Enlarged;
  }

  lemma LeftBack(s: Space, e: Extent)
    requires WellKept(s) && RegionOk(e.flags) && (e.length == 0 || (AllocExtent(e) && AvailSum(s.alloc) > 0))
    ensures var (al, st) := Inserted(s.alloc, e);
            && st in {OK, NOENT} && WellKept(Space(s.free, al))
            && (forall a: int :: Cover(Space(s.free, al), a) == Cover(s, a) + Cov(e, a, Any))
            && (forall a: int, q :: Total(al, a, q) == Total(s.alloc, a, q) + Cov(e, a, q))
  {
    hide WellKept, Cover, AvailSum;
    if e.length != 0 {
      InsertAlloc(s, e);
    }
  }

  lemma CutAllocated(found: Extent, base: u64, len: u64)
    requires AllocExtent(found) && 0 < len && base + len <= TWO64 && InRange(found.base, found.length, base, len)
    ensures var cut := Split(found, base, len);
            && 0 <= cut.status && cut.left.flags == found.flags && cut.left.prot == found.prot
            && (cut.left.length == 0 || AllocExtent(cut.left))
            && (cut.status > 0 ==> AllocExtent(cut.right))
            && (cut.status <= 0 ==> cut.right.length == 0)
            && FreeExtent(Extent(base, len, Region(found.flags), {}))
  {
    SplitConserves(found, base, len);
    WithRegionKeeps(0, found.flags);
  }

  /** What releasing adds to the cover is exactly the extent that was found. */
  lemma ReleasingKeeps(s: Space, found: Extent, base: u64, len: u64, first: Replies, second: Replies)
    requires WellKept(s) && AllocExtent(found) && AvailSum(s.alloc) > 0
    requires 0 < len && base + len <= TWO64 && InRange(found.base, found.length, base, len)
    ensures var (s', out) := Releasing(s, found, base, len, first, second);
            && WellKept(s') && out in {Done(found.flags, found.prot), Refused, Undo}
            && (out == Refused <==> IsLocked(found.flags))
            && (out != Undo ==>
                  && (forall a: int :: Cover(s', a) == Cover(s, a) + Cov(found, a, Any))
                  && (forall a: int, q :: Total(s'.alloc, a, q) + Range(base, len, found.flags, found.prot, a, q)
                                          >= Total(s.alloc, a, q) + Cov(found, a, q)))
            && (out.Done? ==> forall a: int, q ::
                  Total(s'.free, a, q) >= Range(base, len, Region(found.flags), {}, a, q))
            && (out == Refused ==> s'.free == s.free && forall a: int, q ::
                  Total(s'.alloc, a, q) == Total(s.alloc, a, q) + Cov(found, a, q))
  {
    hide Inserted, Enlarged, WellKept, Cover, AvailSum, RestPiece, GiveBack, InRange, Region, IsLocked;
    if IsLocked(found.flags) {
      InsertAlloc(s, found);
    } else {
      var cut := Split(found, base, len);
      CutAllocated(found, base, len);
      SplitConserves(found, base, len);
      LeftBack(s, cut.left);
      var s1 := Space(s.free, Inserted(s.alloc, cut.left).0);
      RestPieceKeeps(s1, cut, first);
      var (s2, st) := RestPiece(s1, cut, first);
      var e := Extent(base, len, Region(found.flags), {});
      GiveBackKeeps(s2, e, second);
    }
  }

  lemma TakenFromAlloc(s: Space, hdrs: seq<Hdr>, e: Extent)
    requires WellKept(s) && ListOk(hdrs)
    requires forall a: int, q :: Total(hdrs, a, q) == Total(s.alloc, a, q) - Cov(e, a, q)
    ensures WellKept(Space(s.free, hdrs))
    ensures forall a: int :: Cover(s, a) == Cover(Space(s.free, hdrs), a) + Cov(e, a, Any)
  {
    hide ListOk;
    forall a: int, at | Total(hdrs, a, Exactly(at)) > 0 ensures TypeOk(at.flags) {
      assert Total(s.alloc, a, Exactly(at)) > 0;
    }
  }

  /** The whole of vm_space_free, retries included, without any assumption about slots: the space
      is valid and the union of the two maps unchanged in every case that does not end in
      vm_space_undo; a success has freed the range, and nothing else that was allocated. */
  lemma FreeingKeeps(s: Space, addr: u64, len: u64, first: Replies, second: Replies)
    requires Valid(s) && NoWrap(addr, len)
    ensures var (s', out) := Freeing(s, addr, len, first, second);
            && (out.Done? || out.Refused? || out.Undo?)
            && (!out.Undo? ==> Valid(s') && forall a: int :: Cover(s', a) == Cover(s, a))
            && (out.Refused? ==> s'.free == s.free && SameMap(s.alloc, s'.alloc))
            && (out.Done? ==>
                  && (forall a: int, q ::
                        Total(s'.free, a, q) >= Range(PageBase(addr), PageLen(len), Region(out.flags), {}, a, q))
                  && (forall a: int, q ::
                        Total(s'.alloc, a, q) + Range(PageBase(addr), PageLen(len), out.flags, out.prot, a, q)
                        >= Total(s.alloc, a, q)))
  {
    hide Inserted, Extracted, WellKept, Cover, AvailSum, Releasing, InRange, PageLen, PageBase, Region, IsLocked;
    var req := Extent(PageBase(addr), PageLen(len), 0, {});
    var x := Extracted(s.alloc, req);
    PageIsNotAuto(addr);
    if addr != BASE_AUTO && x.status == OK {
      TakenIsAllocated(s, req);
      TakenFromAlloc(s, x.hdrs, x.ext);
      ReleasingKeeps(Space(s.free, x.hdrs), x.ext, req.base, req.length, first, second);
    }
  }

  /** A range of whole pages is refused exactly when no allocated extent holds it, or the one that does
      is locked. */
  lemma FreeingRefusedIff(s: Space, addr: u64, len: u64, first: Replies, second: Replies)
    requires Valid(s) && PageRange(addr, len)
    ensures Freeing(s, addr, len, first, second).1.Refused? <==>
              forall p :: ValidPos(s.alloc, p) ==> !Unlocked(s, addr, len, p)
  {
    hide Extracted, ListOk, InRange, Release, Releasing, IsLocked, AvailSum, Unlocked, TypeOk;
    FreeRefusedIff(s, addr, len);
    WholePages(addr, len);
    var req := Extent(addr, len, 0, {});
    var x := Extracted(s.alloc, req);
    if x.status == OK {
      TakenIsAllocated(s, req);
      TakenFromAlloc(s, x.hdrs, x.ext);
      ReleaseMoves(Space(s.free, x.hdrs), x.ext, addr, len);
      ReleasingKeeps(Space(s.free, x.hdrs), x.ext, addr, len, first, second);
    }
  }

  /** The caller of vm_space_free has given back all of its range, in bytes. */
  lemma FreeingTakesAll(s: Space, addr: u64, len: u64, first: Replies, second: Replies)
    requires Valid(s) && NoWrap(addr, len)
    ensures var (s', out) := Freeing(s, addr, len, first, second);
            out.Done? ==>
              && 0 < len <= MAX_LEN
              && (EndsInside(addr, len) ==>
                    forall a: int :: Within(a, addr, len) ==>
                      Total(s'.free, a, Exactly(Attr(Region(out.flags), {}))) > 0)
  {
    hide Freeing, Valid, PageLen, PageBase, EndsInside, NoWrap, Cover, Region;
    FreeingKeeps(s, addr, len, first, second);
    PageLenIs(len);
    if Freeing(s, addr, len, first, second).1.Done? {
      FreeingLen(s, addr, len, first, second);
      PagesHoldIff(addr, len);
      assert forall a: int :: Within(a, addr, len) && EndsInside(addr, len) ==> InPages(addr, len, a);
    }
  }

  lemma FreeingLen(s: Space, addr: u64, len: u64, first: Replies, second: Replies)
    requires Freeing(s, addr, len, first, second).1.Done?
    ensures 0 < PageLen(len) && 0 < len
  {
    hide Scan, Releasing;
  }

  lemma PageIsNotAuto(addr: u64)
    ensures addr != BASE_AUTO ==> PageBase(addr) != BASE_AUTO
  {
  }

  lemma TakenIsAllocated(s: Space, req: Extent)
    requires WellKept(s) && req.base != BASE_AUTO && Extracted(s.alloc, req).status == OK
    ensures var x := Extracted(s.alloc, req);
            && ListOk(x.hdrs) && AllocExtent(x.ext) && AvailSum(x.hdrs) > 0 && 0 < req.length
            && InRange(x.ext.base, x.ext.length, req.base, req.length)
            && forall a: int, q :: Total(x.hdrs, a, q) == Total(s.alloc, a, q) - Cov(x.ext, a, q)
  {
    hide Extracted, ListOk, InRange, TypeOk;
    ExtractMoves(s.alloc, req);
    var p :| ValidPos(s.alloc, p) && Extracted(s.alloc, req).ext == At(s.alloc, p);
    HeldAttrs(s.alloc, p);
  }

  // ---------------------------------------------------------------- when it comes to undoing

  /** Enlarging succeeds exactly when high memory has a page and the page manager agrees, given a slot
      where the page can be recorded. */
  lemma EnlargedOkIff(s: Space, t: Target, pm: Replies)
    requires WellKept(s) && t != Other && (t == KernelFree ==> AvailSum(s.alloc) > 0)
    ensures Enlarged(s, t, pm).1 == OK <==> PageThere(s.free) && pm[0].backend && pm[0].storage
  {
    hide Tracked, WellKept, PageThere, AvailSum;
    TrackedEnds(Lists(s, []), t, PAGE_SLOTS, pm[0]);
  }

  /** An insertion into the allocated list fails for good only when enlarging it failed. */
  lemma RecordFailsIff(s: Space, e: Extent, pm: Replies)
    requires WellKept(s) && AllocExtent(e)
    ensures Record(s, e, pm).1 == OK <==> Inserted(s.alloc, e).1 == OK || Enlarged(s, KernelAlloc, pm).1 == OK
  {
    hide Inserted, Enlarged, WellKept, Cover, AvailSum, AllocExtent;
    InsertAlloc(s, e);
    if Inserted(s.alloc, e).1 == NOMEM {
      EnlargedKeeps(s, KernelAlloc, pm);
      InsertAlloc(Enlarged(s, KernelAlloc, pm).0, e);
    }
  }

  lemma RestPieceFailsIff(s: Space, cut: SplitResult, pm: Replies)
    requires WellKept(s) && (cut.status > 0 ==> AllocExtent(cut.right))
    ensures RestPiece(s, cut, pm).1 == OK <==>
              cut.status <= 0 || Inserted(s.alloc, cut.right).1 == OK || Enlarged(s, KernelAlloc, pm).1 == OK
  {
    hide Inserted, Enlarged, WellKept, Record, AllocExtent;
    if cut.status > 0 {
      InsertAlloc(s, cut.right);
      RecordFailsIff(s, cut.right, pm);
    }
  }

  lemma GiveBackFailsIff(s: Space, e: Extent, pm: Replies)
    requires WellKept(s) && FreeExtent(e)
    ensures GiveBack(s, e, pm).1 == OK <==> Inserted(s.free, e).1 == OK || Enlarged(s, KernelFree, pm).1 == OK
  {
    hide Inserted, Enlarged, WellKept, Cover, AvailSum, FreeExtent;
    InsertFree(s, e);
    if Inserted(s.free, e).1 == NOMEM {
      EnlargedKeeps(s, KernelFree, pm);
      InsertFree(Enlarged(s, KernelFree, pm).0, e);
    }
  }

  lemma RightPieceFailsIff(s: Space, cut: SplitResult, pm: Replies)
    requires WellKept(s) && (cut.status > 0 ==> FreeExtent(cut.left) && FreeExtent(cut.right))
    ensures RightPiece(s, cut, pm).1 == OK <==> !RightLost(s, cut) || Enlarged(s, KernelFree, pm).1 == OK
  {
    hide Inserted, Enlarged, WellKept, Cover, AvailSum, FreeExtent;
    if cut.status > 0 {
      InsertFree(s, cut.right);
      if RightLost(s, cut) {
        EnlargedKeeps(s, KernelFree, pm);
        InsertFree(Enlarged(s, KernelFree, pm).0, cut.left);
      }
    }
  }

  /** A placement ends in vm_space_undo only when enlarging a list failed. */
  lemma PlacingUndoneIff(s: Space, found: Extent, base: u64, len: u64, flags: u32, prot: Bits, first: Replies,
                         second: Replies)
    requires WellKept(s) && FreeExtent(found) && AvailSum(s.free) > 0 && TypeOk(flags)
    requires 0 < len && base + len <= TWO64 && InRange(found.base, found.length, base, len)
    ensures var cut := Split(found, base, len);
            var s1 := Space(Inserted(s.free, cut.left).0, s.alloc);
            var s2 := RightPiece(s1, cut, first).0;
            var e := Extent(base, len, WithRegion(flags, found.flags), prot);
            Placing(s, found, base, len, flags, prot, first, second).1 == Undo <==>
              || (RightLost(s1, cut) && Enlarged(s1, KernelFree, first).1 != OK)
              || (Inserted(s2.alloc, e).1 != OK && Enlarged(s2, KernelAlloc, second).1 != OK)
  {
    hide Inserted, Enlarged, WellKept, Cover, AvailSum, WithRegion, RightPiece, Record, InRange, RightLost;
    var cut := Split(found, base, len);
    CutPieces(found, base, len);
    WithRegionKeeps(flags, found.flags);
    var e := Extent(base, len, WithRegion(flags, found.flags), prot);
    LeftPiece(s, cut.left);
    var s1 := Space(Inserted(s.free, cut.left).0, s.alloc);
    RightPieceKeeps(s1, cut, first);
    RightPieceFailsIff(s1, cut, first);
    var s2 := RightPiece(s1, cut, first).0;
    RecordFailsIff(s2, e, second);
  }

  /** So does a release. */
  lemma ReleasingUndoneIff(s: Space, found: Extent, base: u64, len: u64, first: Replies, second: Replies)
    requires WellKept(s) && AllocExtent(found) && AvailSum(s.alloc) > 0 && !IsLocked(found.flags)
    requires 0 < len && base + len <= TWO64 && InRange(found.base, found.length, base, len)
    ensures var cut := Split(found, base, len);
            var s1 := Space(s.free, Inserted(s.alloc, cut.left).0);
            var s2 := RestPiece(s1, cut, first).0;
            var e := Extent(base, len, Region(found.flags), {});
            Releasing(s, found, base, len, first, second).1 == Undo <==>
              || (cut.status > 0 && Inserted(s1.alloc, cut.right).1 != OK && Enlarged(s1, KernelAlloc, first).1 != OK)
              || (Inserted(s2.free, e).1 != OK && Enlarged(s2, KernelFree, second).1 != OK)
  {
    hide Inserted, Enlarged, WellKept, Cover, AvailSum, RestPiece, GiveBack, InRange, Region, IsLocked;
    var cut := Split(found, base, len);
    CutAllocated(found, base, len);
    LeftBack(s, cut.left);
    var s1 := Space(s.free, Inserted(s.alloc, cut.left).0);
    RestPieceKeeps(s1, cut, first);
    RestPieceFailsIff(s1, cut, first);
    var s2 := RestPiece(s1, cut, first).0;
    GiveBackFailsIff(s2, Extent(base, len, Region(found.flags), {}), second);
  }

  // ---------------------------------------------------------------- without retries

  /** Where the calls modelled without retries succeed, these do the same; an allocation that is
      refused there is refused here. */
  lemma RetriesExtend(s: Space, ctxFlags: u32, addr: u64, len: u64, flags: u32, prot: Bits, first: Replies,
                      second: Replies)
    ensures var (s', out) := Allocated(s, ctxFlags, addr, len, flags, prot);
            out.Placed? || out.Refused? ==>
              Allocating(s, ctxFlags, addr, len, flags, prot, first, second) == (s', out)
    ensures var (s', out) := Freed(s, addr, len);
            out.Done? ==> Freeing(s, addr, len, first, second) == (s', out)
  {
    hide Inserted, Extracted, Split, Enlarged;
  }

  // ---------------------------------------------------------------- whole runs

  /** A call with what the page manager answers during it. */
  datatype Request = Request(call: Call, first: Replies, second: Replies)

  function Serve(s: Space, ctxFlags: u32, r: Request): (Space, Outcome) {
    match r.call
    case Alloc(addr, len, flags, prot) => Allocating(s, ctxFlags, addr, len, flags, prot, r.first, r.second)
    case Free(addr, len) => Freeing(s, addr, len, r.first, r.second)
  }

  function Served(s: Space, ctxFlags: u32, rs: seq<Request>): Space
    decreases |rs|
  {
    if rs == [] then s else Served(Serve(s, ctxFlags, rs[0]).0, ctxFlags, rs[1..])
  }

  /** No call of the run wraps, and none ends in vm_space_undo. */
  predicate Plain(s: Space, ctxFlags: u32, rs: seq<Request>)
    decreases |rs|
  {
    rs == [] ||
    (&& NoWrap(rs[0].call.addr, rs[0].call.len) && !Serve(s, ctxFlags, rs[0]).1.Undo?
     && Plain(Serve(s, ctxFlags, rs[0]).0, ctxFlags, rs[1..]))
  }

  /** The call is an allocation that is served and loses its right piece. */
  predicate Lossy(s: Space, ctxFlags: u32, r: Request) {
    && r.call.Alloc? && Serve(s, ctxFlags, r).1.Placed?
    && LosesRight(s, ctxFlags, r.call.addr, r.call.len, r.call.flags)
  }

  predicate NoneLossy(s: Space, ctxFlags: u32, rs: seq<Request>)
    decreases |rs|
  {
    rs == [] || (!Lossy(s, ctxFlags, rs[0]) && NoneLossy(Serve(s, ctxFlags, rs[0]).0, ctxFlags, rs[1..]))
  }

  ghost predicate StaysValid(s: Space, ctxFlags: u32, rs: seq<Request>)
    decreases |rs|
  {
    Valid(s) && (rs == [] || StaysValid(Serve(s, ctxFlags, rs[0]).0, ctxFlags, rs[1..]))
  }

  lemma ServeIff(s: Space, ctxFlags: u32, r: Request)
    requires Valid(s) && NoWrap(r.call.addr, r.call.len) && !Serve(s, ctxFlags, r).1.Undo?
    ensures var s' := Serve(s, ctxFlags, r).0;
            && (Valid(s') <==> !Lossy(s, ctxFlags, r))
            && (Valid(s') ==> forall a: int :: Cover(s', a) == Cover(s, a))
  {
    hide Valid, Cover, Allocating, Freeing, LosesRight, NoWrap, PageLen, PageBase;
    match r.call
    case Alloc(addr, len, flags, prot) =>
      AllocatingIff(s, ctxFlags, addr, len, flags, prot, r.first, r.second);
    case Free(addr, len) =>
      FreeingKeeps(s, addr, len, r.first, r.second);
  }

  /** Over any run, however often the lists have to be enlarged, the space is valid all along if
      and only if no allocation loses its right piece. */
  lemma {:induction false} ServedValidIff(s: Space, ctxFlags: u32, rs: seq<Request>)
    requires Valid(s) && Plain(s, ctxFlags, rs)
    ensures StaysValid(s, ctxFlags, rs) <==> NoneLossy(s, ctxFlags, rs)
    decreases |rs|
  {
    hide Valid, Cover, Serve, Lossy, NoWrap;
    if rs != [] {
      ServeIff(s, ctxFlags, rs[0]);
      if !Lossy(s, ctxFlags, rs[0]) {
        ServedValidIff(Serve(s, ctxFlags, rs[0]).0, ctxFlags, rs[1..]);
      }
    }
  }

  /** And then no address is lost, duplicated or invented. */
  lemma {:induction false} ServedConserves(s: Space, ctxFlags: u32, rs: seq<Request>)
    requires Valid(s) && Plain(s, ctxFlags, rs) && NoneLossy(s, ctxFlags, rs)
    ensures Valid(Served(s, ctxFlags, rs))
    ensures forall a: int :: Cover(Served(s, ctxFlags, rs), a) == Cover(s, a)
    decreases |rs|
  {
    hide Valid, Cover, Serve, Lossy, NoWrap;
    if rs != [] {
      ServeIff(s, ctxFlags, rs[0]);
      ServedConserves(Serve(s, ctxFlags, rs[0]).0, ctxFlags, rs[1..]);
    }
  }

  /** From the space vm_ctx_init leaves: the addresses of the two halves are free or allocated,
      never both, and no other address ever is. */
  lemma ServedFromStart(vmMax: u64, ctxFlags: u32, rs: seq<Request>)
    requires Plain(InitialSpace(vmMax, PAGE_SLOTS, PAGE_SLOTS), ctxFlags, rs)
    requires NoneLossy(InitialSpace(vmMax, PAGE_SLOTS, PAGE_SLOTS), ctxFlags, rs)
    ensures var s := Served(InitialSpace(vmMax, PAGE_SLOTS, PAGE_SLOTS), ctxFlags, rs);
            Valid(s) && forall a: int :: Cover(s, a) == if Canonical(vmMax, a) then 1 else 0
  {
    InitialSpaceIsWhole(vmMax, PAGE_SLOTS, PAGE_SLOTS);
    hide InitialSpace, Served, Valid, Cover, Canonical, Plain, NoneLossy;
    ServedConserves(InitialSpace(vmMax, PAGE_SLOTS, PAGE_SLOTS), ctxFlags, rs);
  }

  // ---------------------------------------------------------------- the methods

  method InsertRight(kernel: VmContext, cut: SplitResult, pm: Replies) returns (st: Status)
    requires kernel.free != kernel.alloc && cut.status > 0
    modifies kernel.free, kernel.alloc
    ensures (kernel.State(), st) == RightPiece(old(kernel.State()), cut, pm)
  {
    hide Inserted, AllocSlot;
    st := kernel.free.Insert(cut.right);
    if st != NOMEM {
      return OK;
    }
    st := GrowList(kernel, kernel.free, PAGE_SLOTS, PAGE_SLOTS, pm);
    if st == OK {
      st := kernel.free.Insert(cut.left);
    }
  }

  method InsertAllocated(kernel: VmContext, e: Extent, pm: Replies) returns (st: Status)
    requires kernel.free != kernel.alloc
    modifies kernel.free, kernel.alloc
    ensures (kernel.State(), st) == Record(old(kernel.State()), e, pm)
  {
    hide Inserted, AllocSlot;
    st := kernel.alloc.Insert(e);
    if st == NOMEM {
      st := GrowList(kernel, kernel.alloc, PAGE_SLOTS, PAGE_SLOTS, pm);
      if st == OK {
        st := kernel.alloc.Insert(e);
      }
    }
  }

  method InsertFreed(kernel: VmContext, e: Extent, pm: Replies) returns (st: Status)
    requires kernel.free != kernel.alloc
    modifies kernel.free, kernel.alloc
    ensures (kernel.State(), st) == GiveBack(old(kernel.State()), e, pm)
  {
    hide Inserted, AllocSlot;
    st := kernel.free.Insert(e);
    if st == NOMEM {
      st := GrowList(kernel, kernel.free, PAGE_SLOTS, PAGE_SLOTS, pm);
      if st == OK {
        st := kernel.free.Insert(e);
      }
    }
  }

  /** vm_space_alloc on the kernel context. */
  method KernelAllocate(kernel: VmContext, address: u64, length: u64, reqFlags: u32, prot: Bits, first: Replies,
                        second: Replies)
    returns (out: Outcome)
    requires kernel.free != kernel.alloc
    modifies kernel.free, kernel.alloc
    ensures (kernel.State(), out) ==
              Allocating(old(kernel.State()), kernel.flags, address, length, reqFlags, prot, first, second)
  {
    hide Inserted, Extracted, RightPiece, Record, Split;
    var addr, len, fl := address, length, reqFlags;
    if addr == BASE_AUTO {
      if Region(fl) == REGION_MASK {
        return Refused;
      } else if Region(fl) == 0 {
        fl := WithRegion(fl, kernel.flags);
      }
    }
    if !TypeOk(fl) {
      return Refused;
    }
    if len % 0x1000 != 0 {
      len := AlignUp(len);
    }
    if addr != BASE_AUTO && addr % 0x1000 != 0 {
      addr := AlignDown(addr);
    }
    NotFoundStays(kernel.free.hdrs, Extent(addr, len, Region(fl), {}));
    var status, req := kernel.free.Extract(Extent(addr, len, Region(fl), {}));
    if status != OK {
      return Refused;  // vm_extent_merge never succeeds
    }
    if address == BASE_AUTO {
      addr := req.base;
    }
    var cut := Split(req, addr, len);
    if cut.status < 0 {
      status := kernel.free.Insert(req);
      return if status == NOMEM then Halted else Refused;
    }
    status := kernel.free.Insert(cut.left);
    if status == NOMEM {
      return Halted;
    }
    ghost var s1 := kernel.State();
    RightIs(s1, cut, first);
    if cut.status > 0 {
      status := InsertRight(kernel, cut, first);
      if status != OK {
        return Undo;
      }
    }
    status := InsertAllocated(kernel, Extent(addr, len, WithRegion(fl, cut.left.flags), prot), second);
    return if status == OK then Placed(addr) else Undo;
  }

  lemma NotFoundStays(hs: seq<Hdr>, req: Extent)
    ensures Extracted(hs, req).status != OK ==> Extracted(hs, req).hdrs == hs
  {
    hide Scan;
  }

  lemma RightIs(s: Space, cut: SplitResult, pm: Replies)
    ensures cut.status <= 0 ==> RightPiece(s, cut, pm) == (s, OK) && RestPiece(s, cut, pm) == (s, OK)
  {
  }

  /** vm_space_free on the kernel context. */
  method KernelFreeing(kernel: VmContext, address: u64, length: u64, first: Replies, second: Replies)
    returns (out: Outcome)
    requires kernel.free != kernel.alloc
    modifies kernel.free, kernel.alloc
    ensures (kernel.State(), out) == Freeing(old(kernel.State()), address, length, first, second)
  {
    hide Inserted, Extracted, Record, GiveBack, Split;
    if address == BASE_AUTO {
      return Refused;
    }
    var addr, len := address, length;
    if len % 0x1000 != 0 {
      len := AlignUp(len);
    }
    if addr % 0x1000 != 0 {
      addr := AlignDown(addr);
    }
    NotFoundStays(kernel.alloc.hdrs, Extent(addr, len, 0, {}));
    var status, req := kernel.alloc.Extract(Extent(addr, len, 0, {}));
    if status != OK {
      return Refused;
    }
    if IsLocked(req.flags) {
      status := kernel.alloc.Insert(req);
      return Refused;
    }
    var cut := Split(req, addr, len);
    if cut.status < 0 {
      status := kernel.alloc.Insert(req);
      return if status == NOMEM then Halted else Refused;
    }
    status := kernel.alloc.Insert(cut.left);
    if status == NOMEM {
      return Halted;
    }
    ghost var s1 := kernel.State();
    RightIs(s1, cut, first);
    if cut.status > 0 {
      status := InsertRest(kernel, cut, first);
      if status != OK {
        return Undo;
      }
    }
    status := InsertFreed(kernel, Extent(addr, len, Region(cut.left.flags), {}), second);
    return if status == OK then Done(cut.left.flags, cut.left.prot) else Undo;
  }

  method InsertRest(kernel: VmContext, cut: SplitResult, pm: Replies) returns (st: Status)
    requires kernel.free != kernel.alloc && cut.status > 0
    modifies kernel.free, kernel.alloc
    ensures (kernel.State(), st) == RestPiece(old(kernel.State()), cut, pm)
  {
    hide Inserted, AllocSlot;
    st := kernel.alloc.Insert(cut.right);
    if st != NOMEM {
      return OK;
    }
    st := GrowList(kernel, kernel.alloc, PAGE_SLOTS, PAGE_SLOTS, pm);
    if st == OK {
      st := kernel.alloc.Insert(cut.right);
    }
  }
}
