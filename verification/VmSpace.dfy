/** The address space of a context: vm_space_alloc and vm_space_free (mm/vm_space.c), and the
    space vm_ctx_init sets up (mm/vm.c). Both lists together are one value, so that whole runs of
    calls can be stated; the context's methods are proved against it. */
module VmSpace {
  import opened Extents
  import opened ExtentLists

  datatype Space = Space(free: seq<Hdr>, alloc: seq<Hdr>)

  /** How a call ends. OutOfSlots: an insertion found no slot, and the source would now try to
      grow the list; Halted: one of its endless loops; Undo: vm_space_undo for any other
      reason. The model stops at these three. */
  datatype Outcome = Placed(addr: u64) | Done(flags: u32, prot: Bits) | Refused | OutOfSlots | Halted | Undo

  // PAGE_SIZE is 0x1000; it is written out where it divides, to keep the arithmetic linear.
  function AlignDown(x: u64): u64 {
    x / 0x1000 * 0x1000
  }

  function AlignUp(x: u64): u64 {
    AlignDown(Add64(x, 0xFFF))
  }

  function PageLen(len: u64): u64 {
    if len % 0x1000 != 0 then AlignUp(len) else len
  }

  function PageBase(addr: u64): u64 {
    if addr % 0x1000 != 0 then AlignDown(addr) else addr
  }

  // ---------------------------------------------------------------- vm_space_alloc

  /** The flags after the region defaulting at the head of vm_space_alloc. */
  function EffectiveFlags(ctxFlags: u32, addr: u64, flags: u32): u32 {
    if addr == BASE_AUTO && Region(flags) == 0 then WithRegion(flags, ctxFlags) else flags
  }

  predicate AllocRefusedEarly(ctxFlags: u32, addr: u64, flags: u32) {
    || (addr == BASE_AUTO && Region(flags) == REGION_MASK)
    || !TypeOk(EffectiveFlags(ctxFlags, addr, flags))
  }

  function AllocRequest(ctxFlags: u32, addr: u64, len: u64, flags: u32): Extent {
    Extent(if addr == BASE_AUTO then addr else PageBase(addr), PageLen(len),
           Region(EffectiveFlags(ctxFlags, addr, flags)), {})
  }

  /** The part of vm_space_alloc after the extent found has been taken off the free list. */
  function Place(s: Space, found: Extent, base: u64, len: u64, flags: u32, prot: Bits): (Space, Outcome) {
    var cut := Split(found, base, len);
    if cut.status < 0 then
      var (f, st) := Inserted(s.free, found);
      (Space(f, s.alloc), if st == NOMEM then Halted else Refused)
    else
      var (f, st) := Inserted(s.free, cut.left);
      if st == NOMEM then (Space(f, s.alloc), Halted)
      else
        var (f, st) := if cut.status > 0 then Inserted(f, cut.right) else (f, st);
        if st == NOMEM then (Space(f, s.alloc), OutOfSlots)
        else
          var (a, st) := Inserted(s.alloc, Extent(base, len, WithRegion(flags, cut.left.flags), prot));
          (Space(f, a), if st == NOMEM then OutOfSlots else if st != OK then Undo else Placed(base))
  }

  function Allocated(s: Space, ctxFlags: u32, addr: u64, len: u64, flags: u32, prot: Bits): (Space, Outcome) {
    if AllocRefusedEarly(ctxFlags, addr, flags) then (s, Refused)
    else
      var req := AllocRequest(ctxFlags, addr, len, flags);
      var x := Extracted(s.free, req);
      if x.status != OK then (s, Refused)
      else
        Place(Space(x.hdrs, s.alloc), x.ext, if addr == BASE_AUTO then x.ext.base else req.base,
              req.length, EffectiveFlags(ctxFlags, addr, flags), prot)
  }

  // ---------------------------------------------------------------- vm_space_free

  /** The part of vm_space_free after the extent found has been taken off the allocated list. */
  function Release(s: Space, found: Extent, base: u64, len: u64): (Space, Outcome) {
    if IsLocked(found.flags) then
      (Space(s.free, Inserted(s.alloc, found).0), Refused)
    else
      var cut := Split(found, base, len);
      if cut.status < 0 then
        var (a, st) := Inserted(s.alloc, found);
        (Space(s.free, a), if st == NOMEM then Halted else Refused)
      else
        var (a, st) := Inserted(s.alloc, cut.left);
        if st == NOMEM then (Space(s.free, a), Halted)
        else
          var (a, st) := if cut.status > 0 then Inserted(a, cut.right) else (a, st);
          if st == NOMEM then (Space(s.free, a), OutOfSlots)
          else
            var (f, st) := Inserted(s.free, Extent(base, len, Region(cut.left.flags), {}));
            (Space(f, a), if st == NOMEM then OutOfSlots
                          else if st != OK then Refused
                          else Done(cut.left.flags, cut.left.prot))
  }

  function Freed(s: Space, addr: u64, len: u64): (Space, Outcome) {
    if addr == BASE_AUTO then (s, Refused)
    else
      var x := Extracted(s.alloc, Extent(PageBase(addr), PageLen(len), 0, {}));
      if x.status != OK then (s, Refused)
      else Release(Space(s.free, x.hdrs), x.ext, PageBase(addr), PageLen(len))
  }

  // ---------------------------------------------------------------- the two address maps

  ghost function Cover(s: Space, a: int): nat {
    Total(s.free, a, Any) + Total(s.alloc, a, Any)
  }

  /** Free memory carries only its region bit and no protection. */
  ghost predicate FreeAttrs(hs: seq<Hdr>) {
    forall a: int, at :: Total(hs, a, Exactly(at)) > 0 ==> at.prot == {} && at.flags == Region(at.flags)
  }

  /** Allocated memory is either mapped or allocated, never both. */
  ghost predicate AllocAttrs(hs: seq<Hdr>) {
    forall a: int, at :: Total(hs, a, Exactly(at)) > 0 ==> TypeOk(at.flags)
  }

  /** Both lists are in order and carry only the attributes they may carry. */
  ghost predicate WellKept(s: Space) {
    ListOk(s.free) && ListOk(s.alloc) && FreeAttrs(s.free) && AllocAttrs(s.alloc)
  }

  /** And no address is covered twice. */
  ghost predicate Valid(s: Space) {
    WellKept(s) && forall a: int :: Cover(s, a) <= 1
  }

  ghost predicate SameMap(hs: seq<Hdr>, hs': seq<Hdr>) {
    forall a: int, q :: Total(hs', a, q) == Total(hs, a, q)
  }

  /** hs' is hs with [base, base + len) added under the given attributes. */
  ghost predicate Adds(hs: seq<Hdr>, hs': seq<Hdr>, base: int, len: int, flags: u32, prot: Bits) {
    forall a: int, q :: Total(hs', a, q) == Total(hs, a, q) + Range(base, len, flags, prot, a, q)
  }

  /** At most one pair of attributes per address, and no address both free and allocated. */
  lemma MapsAreFunctionsAndDisjoint(s: Space, a: int, at: Attr, at': Attr)
    requires Valid(s)
    ensures Total(s.free, a, Exactly(at)) > 0 && Total(s.free, a, Exactly(at')) > 0 ==> at == at'
    ensures Total(s.alloc, a, Exactly(at)) > 0 && Total(s.alloc, a, Exactly(at')) > 0 ==> at == at'
    ensures Total(s.free, a, Exactly(at)) > 0 ==> Total(s.alloc, a, Any) == 0
  {
    assert Cover(s, a) <= 1;
    TotalByAttr(s.free, a, at, at');
    TotalByAttr(s.alloc, a, at, at');
  }

  lemma {:induction false} CountByAttr(l: seq<Extent>, a: int, at: Attr, at': Attr)
    ensures Count(l, a, Exactly(at)) <= Count(l, a, Any)
    ensures at != at' ==> Count(l, a, Exactly(at)) + Count(l, a, Exactly(at')) <= Count(l, a, Any)
  {
    if l != [] {
      CountByAttr(l[1..], a, at, at');
    }
  }

  lemma {:induction false} TotalByAttr(hs: seq<Hdr>, a: int, at: Attr, at': Attr)
    ensures Total(hs, a, Exactly(at)) <= Total(hs, a, Any)
    ensures at != at' ==> Total(hs, a, Exactly(at)) + Total(hs, a, Exactly(at')) <= Total(hs, a, Any)
  {
    if hs != [] {
      CountByAttr(hs[0].busy, a, at, at');
      TotalByAttr(hs[1..], a, at, at');
    }
  }

  /** Every extent that the list holds shows its attributes in the map. */
  lemma HeldAttrs(hs: seq<Hdr>, p: Pos)
    requires ListOk(hs) && ValidPos(hs, p)
    ensures var e := At(hs, p);
            0 < e.length && Total(hs, e.base, Exactly(Attr(e.flags, e.prot))) > 0
  {
    assert HdrOk(hs[p.hdr]);
    var e := At(hs, p);
    TotalCovers(hs, p.hdr, p.idx, e.base, Exactly(Attr(e.flags, e.prot)));
  }

  // ---------------------------------------------------------------- correctness of alloc

  /** Putting a cut extent back around its middle: two insertions that conserve addresses. */
  lemma PutBack(hs: seq<Hdr>, found: Extent, base: u64, len: u64)
    requires ListOk(hs) && WellFormed(found) && AvailSum(hs) >= 1
    requires 0 < len && base + len <= TWO64 && InRange(found.base, found.length, base, len)
    ensures var cut := Split(found, base, len);
            var (h1, st1) := Inserted(hs, cut.left);
            var (h2, st2) := if cut.status > 0 then Inserted(h1, cut.right) else (h1, st1);
            && 0 <= cut.status && Contains(found, base, len)
            && cut.left.flags == found.flags && cut.left.prot == found.prot
            && st1 in {OK, NOENT}
            && ListOk(h1)
            && (st2 == NOMEM ==> cut.status > 0 && AvailSum(hs) == 1)
            && (st2 != NOMEM ==>
                  && ListOk(h2)
                  && AvailSum(h2) + 2 >= AvailSum(hs)
                  && (cut.status == 0 ==> AvailSum(h2) + 1 >= AvailSum(hs))
                  && forall a: int, q :: Total(h2, a, q) + Range(base, len, found.flags, found.prot, a, q)
                                         == Total(hs, a, q) + Cov(found, a, q))
  {
    var cut := Split(found, base, len);
    SplitConserves(found, base, len);
    var (h1, st1) := Inserted(hs, cut.left);
    assert RegionOk(cut.left.flags);
    if cut.left.length != 0 {
      InsertStatus(hs, cut.left);
      InsertAddsExactly(hs, cut.left);
    }
    if cut.status > 0 {
      InsertStatus(h1, cut.right);
      if Inserted(h1, cut.right).1 == OK {
        InsertAddsExactly(h1, cut.right);
      }
    }
  }

  /** Placing: the found extent's addresses are split between the two maps, nothing else moves. */
  lemma PlaceMoves(s: Space, found: Extent, base: u64, len: u64, flags: u32, prot: Bits)
    requires ListOk(s.free) && ListOk(s.alloc) && WellFormed(found) && AvailSum(s.free) >= 1
    requires 0 < len && base + len <= TWO64 && InRange(found.base, found.length, base, len)
    ensures var (s', out) := Place(s, found, base, len, flags, prot);
            && out in {Placed(base), OutOfSlots}
            && (out == OutOfSlots ==> AvailSum(s.alloc) == 0 || (AvailSum(s.free) == 1 && base != found.base))
            && (out == Placed(base) ==>
                  && Contains(found, base, len)
                  && ListOk(s'.free) && ListOk(s'.alloc)
                  && Adds(s.alloc, s'.alloc, base, len, WithRegion(flags, found.flags), prot)
                  && (forall a: int, q :: Total(s'.free, a, q) + Range(base, len, found.flags, found.prot, a, q)
                                          == Total(s.free, a, q) + Cov(found, a, q)))
  {
    PutBack(s.free, found, base, len);
    WithRegionKeeps(flags, found.flags);
    var e := Extent(base, len, WithRegion(flags, found.flags), prot);
    assert WellFormed(e);
    InsertStatus(s.alloc, e);
    if Inserted(s.alloc, e).1 == OK {
      InsertAddsExactly(s.alloc, e);
    }
  }

  predicate NoWrap(addr: u64, len: u64) {
    addr != BASE_AUTO ==> PageBase(addr) + PageLen(len) <= TWO64
  }

  lemma FoundFits(s: Space, ctxFlags: u32, addr: u64, len: u64, flags: u32)
    requires Valid(s) && NoWrap(addr, len)
    requires !AllocRefusedEarly(ctxFlags, addr, flags)
    requires Extracted(s.free, AllocRequest(ctxFlags, addr, len, flags)).status == OK
    ensures var req := AllocRequest(ctxFlags, addr, len, flags);
            var x := Extracted(s.free, req);
            var base := if addr == BASE_AUTO then x.ext.base else req.base;
            && WellFormed(x.ext) && ListOk(x.hdrs) && AvailSum(x.hdrs) == AvailSum(s.free) + 1
            && 0 < req.length && base + req.length <= TWO64
            && InRange(x.ext.base, x.ext.length, base, req.length)
            && x.ext.prot == {} && x.ext.flags == Region(x.ext.flags)
            && (addr == BASE_AUTO ==> x.ext.flags == req.flags)
            && (forall a: int, q :: Total(x.hdrs, a, q) == Total(s.free, a, q) - Cov(x.ext, a, q))
  {
    hide Extracted, ListOk, Region, EffectiveFlags, Total, InRange;
    var req := AllocRequest(ctxFlags, addr, len, flags);
    var x := Extracted(s.free, req);
    ExtractMoves(s.free, req);
    var p :| ValidPos(s.free, p) && x.ext == At(s.free, p);
    HeldAttrs(s.free, p);
    WithRegionKeeps(0, EffectiveFlags(ctxFlags, addr, flags));
    StartInRange(x.ext, req.length);
  }

  lemma StartInRange(e: Extent, len: u64)
    requires WellFormed(e) && len <= e.length
    ensures InRange(e.base, e.length, e.base, len) && e.base + len <= TWO64
  {
  }

  /** What a successful vm_space_alloc changes. */
  ghost predicate AllocEffect(s: Space, s': Space, base: int, len: int, flags: u32, prot: Bits) {
    && Adds(s.alloc, s'.alloc, base, len, flags, prot)
    && Adds(s'.free, s.free, base, len, Region(flags), {})
  }

  /** The flags a successful allocation records: the caller's, with the region of the memory found. */
  function GrantedFlags(s: Space, ctxFlags: u32, addr: u64, len: u64, flags: u32): u32 {
    WithRegion(EffectiveFlags(ctxFlags, addr, flags),
               Extracted(s.free, AllocRequest(ctxFlags, addr, len, flags)).ext.flags)
  }

  /** Only the region bits of the flags are ever replaced, by those of the memory found; a
      request without a fixed address gets the region it asked for, or the context's own. */
  lemma GrantedFlagsAre(s: Space, ctxFlags: u32, addr: u64, len: u64, flags: u32)
    requires ListOk(s.free)
    requires Extracted(s.free, AllocRequest(ctxFlags, addr, len, flags)).status == OK
    ensures var fl := GrantedFlags(s, ctxFlags, addr, len, flags);
            && fl / 4 == flags / 4
            && RegionOk(fl)
            && (addr == BASE_AUTO ==> Region(fl) == if Region(flags) == 0 then Region(ctxFlags) else Region(flags))
  {
    var eff := EffectiveFlags(ctxFlags, addr, flags);
    var req := AllocRequest(ctxFlags, addr, len, flags);
    ExtractMoves(s.free, req);
    var found := Extracted(s.free, req).ext.flags;
  }

  /** An allocation moves exactly [base, base + len) from the free map to the allocated map with
      the requested flags and protection, and keeps everything Valid promises. Any refused
      call leaves the space as it was, and slots are the only other way to fail. */
  lemma AllocMovesExactly(s: Space, ctxFlags: u32, addr: u64, len: u64, flags: u32, prot: Bits)
    requires Valid(s) && NoWrap(addr, len)
    ensures var (s', out) := Allocated(s, ctxFlags, addr, len, flags, prot);
            && (out.Placed? || out.Refused? || out.OutOfSlots?)
            && (out.Refused? ==> s' == s)
            && (out.OutOfSlots? ==> AvailSum(s.alloc) == 0 || (AvailSum(s.free) == 0 && addr != BASE_AUTO))
            && (out.Placed? ==>
                  && Valid(s')
                  && out.addr + PageLen(len) <= TWO64
                  && (addr != BASE_AUTO ==> out.addr == PageBase(addr))
                  && AllocEffect(s, s', out.addr, PageLen(len), GrantedFlags(s, ctxFlags, addr, len, flags), prot))
  {
    var (s', out) := Allocated(s, ctxFlags, addr, len, flags, prot);
    var req := AllocRequest(ctxFlags, addr, len, flags);
    var x := Extracted(s.free, req);
    if !AllocRefusedEarly(ctxFlags, addr, flags) && x.status == OK {
      FoundFits(s, ctxFlags, addr, len, flags);
      var base := if addr == BASE_AUTO then x.ext.base else req.base;
      var eff := EffectiveFlags(ctxFlags, addr, flags);
      PlaceMoves(Space(x.hdrs, s.alloc), x.ext, base, req.length, eff, prot);
      if out.Placed? {
        var fl := WithRegion(eff, x.ext.flags);
        WithRegionKeeps(eff, x.ext.flags);
        PlacedEffect(s, s', x, base, req.length, fl, prot);
        AllocEffectKeepsValid(s, s', base, req.length, fl, prot);
      }
    }
  }

  lemma PlacedEffect(s: Space, s': Space, x: ExtractResult, base: int, len: int, flags: u32, prot: Bits)
    requires x.ext.prot == {} && x.ext.flags == Region(flags)
    requires forall a: int, q :: Total(x.hdrs, a, q) == Total(s.free, a, q) - Cov(x.ext, a, q)
    requires forall a: int, q :: Total(s'.free, a, q) + Range(base, len, x.ext.flags, x.ext.prot, a, q)
                                 == Total(x.hdrs, a, q) + Cov(x.ext, a, q)
    requires Adds(s.alloc, s'.alloc, base, len, flags, prot)
    ensures AllocEffect(s, s', base, len, flags, prot)
  {
  }

  lemma AllocEffectKeeps(s: Space, s': Space, base: int, len: int, flags: u32, prot: Bits)
    requires WellKept(s) && ListOk(s'.free) && ListOk(s'.alloc) && TypeOk(flags)
    requires AllocEffect(s, s', base, len, flags, prot)
    ensures WellKept(s')
    ensures forall a: int :: Cover(s', a) == Cover(s, a)
  {
    forall a: int ensures Cover(s', a) == Cover(s, a) {
      assert Total(s.free, a, Any) == Total(s'.free, a, Any) + Range(base, len, Region(flags), {}, a, Any);
      assert Total(s'.alloc, a, Any) == Total(s.alloc, a, Any) + Range(base, len, flags, prot, a, Any);
    }
    forall a: int, at | Total(s'.free, a, Exactly(at)) > 0
      ensures at.prot == {} && at.flags == Region(at.flags)
    {
      assert Total(s.free, a, Exactly(at))
        == Total(s'.free, a, Exactly(at)) + Range(base, len, Region(flags), {}, a, Exactly(at));
    }
    forall a: int, at | Total(s'.alloc, a, Exactly(at)) > 0 ensures TypeOk(at.flags) {
      assert Total(s'.alloc, a, Exactly(at))
        == Total(s.alloc, a, Exactly(at)) + Range(base, len, flags, prot, a, Exactly(at));
    }
  }

  lemma AllocEffectKeepsValid(s: Space, s': Space, base: int, len: int, flags: u32, prot: Bits)
    requires Valid(s) && ListOk(s'.free) && ListOk(s'.alloc) && TypeOk(flags)
    requires AllocEffect(s, s', base, len, flags, prot)
    ensures Valid(s')
    ensures forall a: int :: Cover(s', a) == Cover(s, a)
  {
    hide WellKept, Cover, AllocEffect, ListOk;
    AllocEffectKeeps(s, s', base, len, flags, prot);
  }

  // ---------------------------------------------------------------- correctness of free

  /** What a successful vm_space_free changes. */
  ghost predicate FreeEffect(s: Space, s': Space, base: int, len: int, flags: u32, prot: Bits) {
    && Adds(s'.alloc, s.alloc, base, len, flags, prot)
    && Adds(s.free, s'.free, base, len, Region(flags), {})
  }

  lemma FreeEffectKeepsValid(s: Space, s': Space, base: int, len: int, flags: u32, prot: Bits)
    requires Valid(s) && ListOk(s'.free) && ListOk(s'.alloc)
    requires FreeEffect(s, s', base, len, flags, prot)
    ensures Valid(s')
    ensures forall a: int :: Cover(s', a) == Cover(s, a)
  {
    forall a: int ensures Cover(s', a) == Cover(s, a) && Cover(s', a) <= 1 {
      assert Cover(s, a) <= 1;
      assert Total(s'.free, a, Any) == Total(s.free, a, Any) + Range(base, len, Region(flags), {}, a, Any);
      assert Total(s.alloc, a, Any) == Total(s'.alloc, a, Any) + Range(base, len, flags, prot, a, Any);
    }
    WithRegionKeeps(flags, flags);
    forall a: int, at | Total(s'.free, a, Exactly(at)) > 0
      ensures at.prot == {} && at.flags == Region(at.flags)
    {
      assert Total(s'.free, a, Exactly(at))
        == Total(s.free, a, Exactly(at)) + Range(base, len, Region(flags), {}, a, Exactly(at));
    }
    forall a: int, at | Total(s'.alloc, a, Exactly(at)) > 0 ensures TypeOk(at.flags) {
      assert Total(s.alloc, a, Exactly(at))
        == Total(s'.alloc, a, Exactly(at)) + Range(base, len, flags, prot, a, Exactly(at));
    }
  }

  lemma ReleaseMoves(s: Space, found: Extent, base: u64, len: u64)
    requires ListOk(s.free) && ListOk(s.alloc) && WellFormed(found) && AvailSum(s.alloc) >= 1
    requires 0 < len && base + len <= TWO64 && InRange(found.base, found.length, base, len)
    ensures var (s', out) := Release(s, found, base, len);
            && (out == Refused <==> IsLocked(found.flags))
            && out in {Done(found.flags, found.prot), OutOfSlots, Refused}
            && (out == Refused ==>
                  && s'.free == s.free && ListOk(s'.alloc)
                  && forall a: int, q :: Total(s'.alloc, a, q) == Total(s.alloc, a, q) + Cov(found, a, q))
            && (out == OutOfSlots ==> AvailSum(s.free) == 0 || AvailSum(s.alloc) == 1)
            && (out.Done? ==>
                  && Contains(found, base, len)
                  && ListOk(s'.free) && ListOk(s'.alloc)
                  && AvailSum(s'.free) + 1 >= AvailSum(s.free) && AvailSum(s'.alloc) + 2 >= AvailSum(s.alloc)
                  && Adds(s.free, s'.free, base, len, Region(found.flags), {})
                  && (forall a: int, q :: Total(s'.alloc, a, q) + Range(base, len, found.flags, found.prot, a, q)
                                          == Total(s.alloc, a, q) + Cov(found, a, q)))
  {
    var (s', out) := Release(s, found, base, len);
    if IsLocked(found.flags) {
      InsertStatus(s.alloc, found);
      InsertAddsExactly(s.alloc, found);
    } else {
      PutBack(s.alloc, found, base, len);
      WithRegionKeeps(found.flags, found.flags);
      var e := Extent(base, len, Region(found.flags), {});
      assert WellFormed(e);
      InsertStatus(s.free, e);
      if Inserted(s.free, e).1 == OK {
        InsertAddsExactly(s.free, e);
      }
    }
  }

  /** A free moves exactly its range back to the free map and reports the old attributes; a
      locked or absent range changes neither map, and slots are the only other way to fail. */
  lemma FreeMovesExactly(s: Space, addr: u64, len: u64)
    requires Valid(s) && NoWrap(addr, len)
    ensures var (s', out) := Freed(s, addr, len);
            && (out.Done? || out.Refused? || out.OutOfSlots?)
            && (out.Refused? ==> Valid(s') && s'.free == s.free && SameMap(s.alloc, s'.alloc))
            && (out.OutOfSlots? ==> AvailSum(s.alloc) == 0 || AvailSum(s.free) == 0)
            && (out.Done? ==>
                  && Valid(s')
                  && FreeEffect(s, s', PageBase(addr), PageLen(len), out.flags, out.prot)
                  && AvailSum(s'.free) + 1 >= AvailSum(s.free) && AvailSum(s'.alloc) + 1 >= AvailSum(s.alloc)
                  && !IsLocked(out.flags) && RegionOk(out.flags) && TypeOk(out.flags))
  {
    var (s', out) := Freed(s, addr, len);
    var req := Extent(PageBase(addr), PageLen(len), 0, {});
    var x := Extracted(s.alloc, req);
    if addr != BASE_AUTO && x.status == OK {
      ExtractMoves(s.alloc, req);
      var p :| ValidPos(s.alloc, p) && x.ext == At(s.alloc, p);
      HeldAttrs(s.alloc, p);
      ReleaseMoves(Space(s.free, x.hdrs), x.ext, req.base, req.length);
      if out.Done? {
        assert FreeEffect(s, s', req.base, req.length, out.flags, out.prot);
        FreeEffectKeepsValid(s, s', req.base, req.length, out.flags, out.prot);
      } else if out.Refused? {
        assert SameMap(s.alloc, s'.alloc);
        assert forall a: int :: Cover(s', a) == Cover(s, a);
      }
    }
  }

  // ---------------------------------------------------------------- completeness

  /** With two free slots, one of them in the header just taken from, and one for allocated
      memory, placing what was found cannot fail, whether or not the range wraps. */
  lemma PlaceSucceeds(s: Space, found: Extent, base: u64, len: u64, flags: u32, prot: Bits)
    requires RegionOk(found.flags) && AvailSum(s.free) >= 2 && AvailSum(s.alloc) >= 1
    requires 0 < len && InRange(found.base, found.length, base, len)
    ensures Place(s, found, base, len, flags, prot).1 == Placed(base)
  {
    var cut := Split(found, base, len);
    var f := Inserted(s.free, cut.left).0;
    if cut.left.length > 0 {
      InsertStatus(s.free, cut.left);
    }
    InsertTakesOne(s.free, cut.left);
    if cut.status > 0 {
      InsertStatus(f, cut.right);
    }
    WithRegionKeeps(flags, found.flags);
    InsertStatus(s.alloc, Extent(base, len, WithRegion(flags, found.flags), prot));
    hide Inserted, AvailSum, InRange;
  }

  lemma ReleaseSucceeds(s: Space, found: Extent, base: u64, len: u64)
    requires RegionOk(found.flags) && !IsLocked(found.flags) && AvailSum(s.free) >= 1 && AvailSum(s.alloc) >= 2
    requires 0 < len && InRange(found.base, found.length, base, len)
    ensures Release(s, found, base, len).1 == Done(found.flags, found.prot)
  {
    var cut := Split(found, base, len);
    var a := Inserted(s.alloc, cut.left).0;
    if cut.left.length > 0 {
      InsertStatus(s.alloc, cut.left);
    }
    InsertTakesOne(s.alloc, cut.left);
    if cut.status > 0 {
      InsertStatus(a, cut.right);
    }
    WithRegionKeeps(found.flags, found.flags);
    InsertStatus(s.free, Extent(base, len, Region(found.flags), {}));
    hide Inserted, AvailSum, InRange;
  }

  /** With spare slots an allocation, wrapping or not, succeeds exactly when its flags are
      acceptable and the search finds something, and changes nothing otherwise. */
  lemma PlacedIffFound(s: Space, ctxFlags: u32, addr: u64, len: u64, flags: u32, prot: Bits)
    requires Valid(s) && AvailSum(s.free) > 0 && AvailSum(s.alloc) > 0
    ensures var (s', out) := Allocated(s, ctxFlags, addr, len, flags, prot);
            && (out.Placed? <==>
                  && !AllocRefusedEarly(ctxFlags, addr, flags)
                  && Extracted(s.free, AllocRequest(ctxFlags, addr, len, flags)).status == OK)
            && (!out.Placed? ==> out == Refused && s' == s)
  {
    var req := AllocRequest(ctxFlags, addr, len, flags);
    var x := Extracted(s.free, req);
    if !AllocRefusedEarly(ctxFlags, addr, flags) && x.status == OK {
      ExtractMoves(s.free, req);
      var base := if addr == BASE_AUTO then x.ext.base else req.base;
      PlaceSucceeds(Space(x.hdrs, s.alloc), x.ext, base, req.length, EffectiveFlags(ctxFlags, addr, flags), prot);
    }
  }

  /** With spare slots a free, wrapping or not, succeeds exactly when the search finds something
      that is not locked, and changes neither map otherwise. */
  lemma DoneIffFound(s: Space, addr: u64, len: u64)
    requires Valid(s) && AvailSum(s.free) > 0 && AvailSum(s.alloc) > 0
    ensures var (s', out) := Freed(s, addr, len);
            var x := Extracted(s.alloc, Extent(PageBase(addr), PageLen(len), 0, {}));
            && (out.Done? <==> addr != BASE_AUTO && x.status == OK && !IsLocked(x.ext.flags))
            && (!out.Done? ==> out == Refused && Valid(s') && s'.free == s.free && SameMap(s.alloc, s'.alloc))
  {
    hide Inserted, Extracted, Release, PageBase, PageLen, ListOk, InRange;
    var req := Extent(PageBase(addr), PageLen(len), 0, {});
    var x := Extracted(s.alloc, req);
    var s' := Freed(s, addr, len).0;
    if addr != BASE_AUTO && x.status == OK {
      ExtractMoves(s.alloc, req);
      if IsLocked(x.ext.flags) {
        LockedReturns(Space(s.free, x.hdrs), x.ext, req.base, req.length);
        SameMapsAreValid(s, s');
      } else {
        ReleaseSucceeds(Space(s.free, x.hdrs), x.ext, req.base, req.length);
      }
    }
  }

  lemma LockedReturns(s: Space, found: Extent, base: u64, len: u64)
    requires ListOk(s.alloc) && WellFormed(found) && AvailSum(s.alloc) > 0 && IsLocked(found.flags)
    ensures var (s', out) := Release(s, found, base, len);
            && out == Refused && s'.free == s.free && ListOk(s'.alloc)
            && forall a: int, q :: Total(s'.alloc, a, q) == Total(s.alloc, a, q) + Cov(found, a, q)
  {
    hide Inserted;
    InsertStatus(s.alloc, found);
    InsertAddsExactly(s.alloc, found);
  }

  lemma SameMapsAreValid(s: Space, s': Space)
    requires Valid(s) && ListOk(s'.free) && ListOk(s'.alloc)
    requires SameMap(s.free, s'.free) && SameMap(s.alloc, s'.alloc)
    ensures Valid(s') && forall a: int :: Cover(s', a) == Cover(s, a)
  {
    forall a: int ensures Cover(s', a) == Cover(s, a) && Cover(s', a) <= 1 {
      assert Cover(s, a) <= 1;
    }
  }

  /** A fixed-address request is found exactly when one extent contains all of it. */
  lemma FoundIffContained(hs: seq<Hdr>, req: Extent)
    requires ListOk(hs) && req.base != BASE_AUTO && req.base + req.length <= TWO64
    ensures Extracted(hs, req).status == OK <==>
              0 < req.length && exists p :: ValidPos(hs, p) && Contains(At(hs, p), req.base, req.length)
  {
    if Extracted(hs, req).status == OK {
      ExtractMoves(hs, req);
      var p :| ValidPos(hs, p) && Extracted(hs, req).ext == At(hs, p);
      InRangeExact(At(hs, p), req.base, req.length);
    }
    if 0 < req.length {
      forall p | ValidPos(hs, p) && Contains(At(hs, p), req.base, req.length)
        ensures Extracted(hs, req).status == OK
      {
        ExtractFindsContaining(hs, req, p.hdr, p.idx);
      }
    }
  }

  /** p is the first extent whose range test accepts the request, and it is long enough. */
  ghost predicate FirstHit(hs: seq<Hdr>, p: Pos, req: Extent) {
    && ValidPos(hs, p) && Hit(hs, p, req) && At(hs, p).length >= req.length
    && forall p' :: ValidPos(hs, p') && Hit(hs, p', req) ==> !Before(p', p)
  }

  lemma FoundIffFirstHit(hs: seq<Hdr>, req: Extent)
    requires req.base != BASE_AUTO
    ensures Extracted(hs, req).status == OK <==> 0 < req.length && exists p :: FirstHit(hs, p, req)
  {
    ScanFindsFirst(hs, req, 0, 0);
    var r := Scan(hs, req, 0, 0, None);
    if exists p :: FirstHit(hs, p, req) {
      var p :| FirstHit(hs, p, req);
      assert r.value == p;
    }
    if r.Some? && At(hs, r.value).length >= req.length {
      assert FirstHit(hs, r.value, req);
    }
  }

  /** One memory type is named, and without a fixed address not both regions. */
  predicate Acceptable(addr: u64, flags: u32) {
    TypeOk(flags) && !(addr == BASE_AUTO && Region(flags) == LOW_MEM + HIGH_MEM)
  }

  /** An extent of the region that is asked for, which is the context's own when none is named, and
      long enough. */
  predicate Serves(e: Extent, ctxFlags: u32, len: u64, flags: u32) {
    Region(e.flags) == (if Region(flags) == 0 then Region(ctxFlags) else Region(flags)) && e.length >= PageLen(len)
  }

  lemma AcceptableIff(ctxFlags: u32, addr: u64, flags: u32)
    ensures AllocRefusedEarly(ctxFlags, addr, flags) <==> !Acceptable(addr, flags)
  {
    WithRegionKeeps(flags, ctxFlags);
  }

  lemma ServesIff(e: Extent, ctxFlags: u32, len: u64, flags: u32)
    ensures Fits(e, AllocRequest(ctxFlags, BASE_AUTO, len, flags)) <==> Serves(e, ctxFlags, len, flags)
  {
    WithRegionKeeps(flags, ctxFlags);
    WithRegionKeeps(0, EffectiveFlags(ctxFlags, BASE_AUTO, flags));
  }

  /** With a spare slot in each list, an allocation succeeds exactly when its flags are
      acceptable, its length is not zero and some free extent can hold it; a fixed address that
      wraps is accepted by the first extent whose range test is fooled, if that is long enough. */
  lemma AllocServedIff(s: Space, ctxFlags: u32, addr: u64, len: u64, flags: u32, prot: Bits)
    requires Valid(s) && AvailSum(s.free) > 0 && AvailSum(s.alloc) > 0
    ensures Allocated(s, ctxFlags, addr, len, flags, prot).1.Placed? <==>
              && Acceptable(addr, flags)
              && 0 < len <= MAX_LEN
              && if addr == BASE_AUTO then
                   exists p :: ValidPos(s.free, p) && Serves(At(s.free, p), ctxFlags, len, flags)
                 else if NoWrap(addr, len) then
                   exists p :: ValidPos(s.free, p) && Contains(At(s.free, p), PageBase(addr), PageLen(len))
                 else exists p :: FirstHit(s.free, p, AllocRequest(ctxFlags, addr, len, flags))
  {
    hide Allocated, Extracted, Serves, PageLen, PageBase, EffectiveFlags, AllocRefusedEarly, Acceptable, AllocRequest;
    hide Valid, AvailSum, FirstHit, NoWrap;
    PlacedIffFound(s, ctxFlags, addr, len, flags, prot);
    AcceptableIff(ctxFlags, addr, flags);
    LenIsPositive(len);
    RequestIs(ctxFlags, addr, len, flags);
    if addr == BASE_AUTO {
      AutoFoundIff(s.free, ctxFlags, len, flags);
    } else if NoWrap(addr, len) {
      FixedFoundIff(s, ctxFlags, addr, len, flags);
    } else {
      FoundIffFirstHit(s.free, AllocRequest(ctxFlags, addr, len, flags));
    }
  }

  lemma LenIsPositive(len: u64)
    ensures 0 < PageLen(len) <==> 0 < len <= MAX_LEN
  {
    PageLenIs(len);
  }

  lemma RequestIs(ctxFlags: u32, addr: u64, len: u64, flags: u32)
    ensures var req := AllocRequest(ctxFlags, addr, len, flags);
            && req.length == PageLen(len)
            && (addr == BASE_AUTO <==> req.base == BASE_AUTO)
            && (addr != BASE_AUTO ==> req.base == PageBase(addr))
  {
  }

  lemma AutoFoundIff(hs: seq<Hdr>, ctxFlags: u32, len: u64, flags: u32)
    ensures Extracted(hs, AllocRequest(ctxFlags, BASE_AUTO, len, flags)).status == OK <==>
              0 < PageLen(len) && exists p :: ValidPos(hs, p) && Serves(At(hs, p), ctxFlags, len, flags)
  {
    hide Extracted, Serves, PageLen, EffectiveFlags, AllocRequest, Fits;
    RequestIs(ctxFlags, BASE_AUTO, len, flags);
    var req := AllocRequest(ctxFlags, BASE_AUTO, len, flags);
    if 0 < PageLen(len) {
      ExtractIsBestFit(hs, req);
      forall p | ValidPos(hs, p) ensures Fits(At(hs, p), req) <==> Serves(At(hs, p), ctxFlags, len, flags) {
        ServesIff(At(hs, p), ctxFlags, len, flags);
      }
    } else {
      NothingFound(hs, req);
    }
  }

  lemma FixedFoundIff(s: Space, ctxFlags: u32, addr: u64, len: u64, flags: u32)
    requires Valid(s) && addr != BASE_AUTO && NoWrap(addr, len)
    ensures Extracted(s.free, AllocRequest(ctxFlags, addr, len, flags)).status == OK <==>
              && 0 < PageLen(len)
              && exists p :: ValidPos(s.free, p) && Contains(At(s.free, p), PageBase(addr), PageLen(len))
  {
    hide Extracted, PageLen, PageBase, EffectiveFlags, AllocRequest, ListOk;
    RequestIs(ctxFlags, addr, len, flags);
    FoundIffContained(s.free, AllocRequest(ctxFlags, addr, len, flags));
  }

  lemma NothingFound(hs: seq<Hdr>, req: Extent)
    requires req.length == 0
    ensures Extracted(hs, req).status != OK
  {
  }

  /** Best fit at the level of the call: no free extent that could have served the request is
      shorter than the one an address-free allocation was cut from. */
  lemma AutoAllocIsBestFit(s: Space, ctxFlags: u32, len: u64, flags: u32, prot: Bits)
    requires Valid(s)
    ensures var out := Allocated(s, ctxFlags, BASE_AUTO, len, flags, prot).1;
            out.Placed? ==>
              exists p ::
                && ValidPos(s.free, p)
                && At(s.free, p).base == out.addr
                && Serves(At(s.free, p), ctxFlags, len, flags)
                && forall p' :: ValidPos(s.free, p') && Serves(At(s.free, p'), ctxFlags, len, flags) ==>
                     At(s.free, p).length <= At(s.free, p').length
  {
    hide Serves, PageLen, EffectiveFlags, Scan, ListOk, Split, Inserted;
    var req := AllocRequest(ctxFlags, BASE_AUTO, len, flags);
    if Allocated(s, ctxFlags, BASE_AUTO, len, flags, prot).1.Placed? {
      ExtractMoves(s.free, req);
      ExtractIsBestFit(s.free, req);
      forall p | ValidPos(s.free, p) {
        ServesIff(At(s.free, p), ctxFlags, len, flags);
      }
    }
  }

  // ---------------------------------------------------------------- exactness

  lemma CoveredIsInside(hs: seq<Hdr>, a: int, q: Query)
    requires ListOk(hs) && Total(hs, a, q) > 0
    ensures 0 <= a < TWO64
  {
    var i, k := TotalWitness(hs, a, q);
    assert HdrOk(hs[i]) && WellFormed(hs[i].busy[k]);
  }

  /** A range that leaves the map of a valid list lies inside the address space. */
  lemma RemovedIsInside(hs: seq<Hdr>, hs': seq<Hdr>, base: int, len: int, flags: u32, prot: Bits)
    requires ListOk(hs) && 0 < len && Adds(hs', hs, base, len, flags, prot)
    ensures base + len <= TWO64
  {
    var last := base + len - 1;
    assert Total(hs, last, Any) == Total(hs', last, Any) + Range(base, len, flags, prot, last, Any);
    CoveredIsInside(hs, last, Any);
  }

  /** A successful vm_space_alloc does what it should exactly when its range does not run past
      the end of the address space. */
  lemma AllocExactIff(s: Space, ctxFlags: u32, addr: u64, len: u64, flags: u32, prot: Bits)
    requires Valid(s)
    ensures var (s', out) := Allocated(s, ctxFlags, addr, len, flags, prot);
            out.Placed? ==>
              (AllocEffect(s, s', out.addr, PageLen(len), GrantedFlags(s, ctxFlags, addr, len, flags), prot)
               <==> NoWrap(addr, len))
  {
    var (s', out) := Allocated(s, ctxFlags, addr, len, flags, prot);
    var fl := GrantedFlags(s, ctxFlags, addr, len, flags);
    if NoWrap(addr, len) {
      AllocMovesExactly(s, ctxFlags, addr, len, flags, prot);
    }
    if out.Placed? && addr != BASE_AUTO && AllocEffect(s, s', out.addr, PageLen(len), fl, prot) {
      PlacedWhere(s, ctxFlags, addr, len, flags, prot);
      RemovedIsInside(s.free, s'.free, out.addr, PageLen(len), Region(fl), {});
    }
  }

  lemma PlacedWhere(s: Space, ctxFlags: u32, addr: u64, len: u64, flags: u32, prot: Bits)
    requires addr != BASE_AUTO && Allocated(s, ctxFlags, addr, len, flags, prot).1.Placed?
    ensures Allocated(s, ctxFlags, addr, len, flags, prot).1.addr == PageBase(addr) && 0 < PageLen(len)
  {
    hide Inserted, Scan;
  }

  /** The same for vm_space_free. */
  lemma FreeExactIff(s: Space, addr: u64, len: u64)
    requires Valid(s)
    ensures var (s', out) := Freed(s, addr, len);
            out.Done? ==>
              (FreeEffect(s, s', PageBase(addr), PageLen(len), out.flags, out.prot) <==> NoWrap(addr, len))
  {
    var (s', out) := Freed(s, addr, len);
    if NoWrap(addr, len) {
      FreeMovesExactly(s, addr, len);
    }
    if out.Done? && FreeEffect(s, s', PageBase(addr), PageLen(len), out.flags, out.prot) {
      RemovedIsInside(s.alloc, s'.alloc, PageBase(addr), PageLen(len), out.flags, out.prot);
    }
  }

  /** Inserting a range that runs past 2^64 always leaves an extent that does. */
  lemma WrapStays(hs: seq<Hdr>, ext: Extent)
    requires ListOk(hs) && RegionOk(ext.flags) && Inserted(hs, ext).1 == OK
    requires 0 < ext.length <= HALF && TWO64 < End(ext)
    ensures !ListOk(Inserted(hs, ext).0)
  {
    var hs' := Inserted(hs, ext).0;
    if JoinableList(hs, ext) {
      var i := FirstJoinHdr(hs, ext, 0);
      var k := FirstJoin(hs[i].busy, ext, 0);
      assert HdrOk(hs[i]);
      WrapJoined(hs[i].busy, ext, k);
      assert !WellFormed(hs'[i].busy[k]);
      assert !HdrOk(hs'[i]);
    } else {
      var i := Pick(hs, |hs|);
      assert hs'[i].busy[|hs[i].busy|] == ext && !WellFormed(ext);
      assert !HdrOk(hs'[i]);
    }
  }

  lemma WrapJoined(busy: seq<Extent>, ext: Extent, k: nat)
    requires AllWellFormed(busy) && Apart(busy) && k < |busy| && Joinable(ext, busy[k])
    requires 0 < ext.length <= HALF && TWO64 < End(ext)
    ensures TWO64 < End(JoinAt(busy, ext, k)[k])
  {
    var dest := busy[k];
    var c := Join(ext, dest);
    assert WellFormed(dest) && End(dest) == ext.base && End(c) == End(ext);
    var j := FirstMerge(busy, c, k + 1);
    if j < |busy| {
      assert WellFormed(busy[j]);
      MergeAcrossTop(busy[j], dest, c);
      assert false;
    }
  }

  /** An extent that runs past 2^64 merges with nothing that was apart from its lower part. */
  lemma MergeAcrossTop(m: Extent, dest: Extent, c: Extent)
    requires WellFormed(m) && WellFormed(dest) && Joinable(m, c)
    requires c.base == dest.base && c.flags == dest.flags && c.prot == dest.prot
    requires End(dest) < TWO64 < End(c) && End(c) - End(dest) <= HALF
    ensures Joinable(m, dest)
  {
  }

  lemma FoundIsLong(hs: seq<Hdr>, req: Extent)
    requires ListOk(hs) && Extracted(hs, req).status == OK
    ensures 0 < req.length <= HALF
  {
    ExtractMoves(hs, req);
  }

  /** A successful allocation leaves a valid space exactly when its range does not wrap. */
  lemma AllocValidIff(s: Space, ctxFlags: u32, addr: u64, len: u64, flags: u32, prot: Bits)
    requires Valid(s) && Allocated(s, ctxFlags, addr, len, flags, prot).1.Placed?
    ensures Valid(Allocated(s, ctxFlags, addr, len, flags, prot).0) <==> NoWrap(addr, len)
  {
    if NoWrap(addr, len) {
      AllocMovesExactly(s, ctxFlags, addr, len, flags, prot);
    } else {
      var req := AllocRequest(ctxFlags, addr, len, flags);
      var x := Extracted(s.free, req);
      FoundIsLong(s.free, req);
      var e := Extent(req.base, req.length, WithRegion(EffectiveFlags(ctxFlags, addr, flags), x.ext.flags), prot);
      PlacedInserts(s, ctxFlags, addr, len, flags, prot);
      WrapStays(s.alloc, e);
    }
  }

  lemma PlacedInserts(s: Space, ctxFlags: u32, addr: u64, len: u64, flags: u32, prot: Bits)
    requires ListOk(s.free) && addr != BASE_AUTO && Allocated(s, ctxFlags, addr, len, flags, prot).1.Placed?
    ensures var req := AllocRequest(ctxFlags, addr, len, flags);
            var x := Extracted(s.free, req);
            var e := Extent(req.base, req.length, WithRegion(EffectiveFlags(ctxFlags, addr, flags), x.ext.flags), prot);
            && x.status == OK && RegionOk(e.flags)
            && Inserted(s.alloc, e) == (Allocated(s, ctxFlags, addr, len, flags, prot).0.alloc, OK)
  {
    hide Inserted, Extracted, Place, Split, WithRegion, EffectiveFlags, PageBase, PageLen;
    var req := AllocRequest(ctxFlags, addr, len, flags);
    ExtractMoves(s.free, req);
    var x := Extracted(s.free, req);
    PlaceInserts(Space(x.hdrs, s.alloc), x.ext, req.base, req.length, EffectiveFlags(ctxFlags, addr, flags), prot);
  }

  lemma PlaceInserts(s: Space, found: Extent, base: u64, len: u64, flags: u32, prot: Bits)
    requires RegionOk(found.flags) && Place(s, found, base, len, flags, prot).1.Placed?
    ensures var e := Extent(base, len, WithRegion(flags, found.flags), prot);
            RegionOk(e.flags) && Inserted(s.alloc, e) == (Place(s, found, base, len, flags, prot).0.alloc, OK)
  {
    hide Inserted;
    WithRegionKeeps(flags, found.flags);
  }

  /** A successful free leaves a valid space exactly when its range does not wrap. */
  lemma FreeValidIff(s: Space, addr: u64, len: u64)
    requires Valid(s) && Freed(s, addr, len).1.Done?
    ensures Valid(Freed(s, addr, len).0) <==> NoWrap(addr, len)
  {
    if NoWrap(addr, len) {
      FreeMovesExactly(s, addr, len);
    } else {
      var req := Extent(PageBase(addr), PageLen(len), 0, {});
      FoundIsLong(s.alloc, req);
      DoneInserts(s, addr, len);
      WrapStays(s.free, Extent(req.base, req.length, Region(Extracted(s.alloc, req).ext.flags), {}));
    }
  }

  lemma DoneInserts(s: Space, addr: u64, len: u64)
    requires ListOk(s.alloc) && Freed(s, addr, len).1.Done?
    ensures var req := Extent(PageBase(addr), PageLen(len), 0, {});
            var x := Extracted(s.alloc, req);
            var e := Extent(req.base, req.length, Region(x.ext.flags), {});
            && x.status == OK && RegionOk(e.flags)
            && Inserted(s.free, e) == (Freed(s, addr, len).0.free, OK)
  {
    hide Inserted, Extracted, Release, Split, PageBase, PageLen, Region;
    var req := Extent(PageBase(addr), PageLen(len), 0, {});
    ExtractMoves(s.alloc, req);
    var x := Extracted(s.alloc, req);
    ReleaseInserts(Space(s.free, x.hdrs), x.ext, req.base, req.length);
  }

  lemma ReleaseInserts(s: Space, found: Extent, base: u64, len: u64)
    requires RegionOk(found.flags) && Release(s, found, base, len).1.Done?
    ensures var e := Extent(base, len, Region(found.flags), {});
            RegionOk(e.flags) && Inserted(s.free, e) == (Release(s, found, base, len).0.free, OK)
  {
    hide Inserted;
    WithRegionKeeps(0, found.flags);
  }

  // ---------------------------------------------------------------- whole pages

  /** The largest length that can be rounded up to whole pages. */
  const MAX_LEN: u64 := 0xFFFF_FFFF_FFFF_F000

  /** Lengths are rounded up to whole pages, but those above MAX_LEN wrap around to 0. */
  lemma PageLenIs(len: u64)
    ensures PageLen(len) % 0x1000 == 0
    ensures if len <= MAX_LEN then len <= PageLen(len) < len + 0x1000 else PageLen(len) == 0
  {
  }

  /** Addresses are rounded down. */
  lemma PageBaseIs(addr: u64)
    ensures PageBase(addr) % 0x1000 == 0 && PageBase(addr) <= addr < PageBase(addr) + 0x1000
  {
  }

  /** Base and length are rounded on their own: the pages taken hold the range that was asked for
      exactly when its end lies in the last of them. */
  predicate EndsInside(addr: u64, len: u64) {
    addr % 0x1000 + (len - 1) % 0x1000 < 0x1000
  }

  predicate InPages(addr: u64, len: u64, a: int) {
    PageBase(addr) <= a < PageBase(addr) + PageLen(len)
  }

  lemma PagesHoldIff(addr: u64, len: u64)
    requires 0 < len <= MAX_LEN
    ensures (forall a: int :: addr <= a < addr + len ==> InPages(addr, len, a)) <==> EndsInside(addr, len)
  {
    PagesEnd(addr, len);
    hide PageBase, PageLen;
    assert InPages(addr, len, addr + len - 1) <==> EndsInside(addr, len);
  }

  lemma PagesEnd(addr: u64, len: u64)
    requires 0 < len <= MAX_LEN
    ensures PageBase(addr) == addr - addr % 0x1000 && PageLen(len) == len - 1 - (len - 1) % 0x1000 + 0x1000
  {
  }

  /** A page-aligned range, and one that starts at a page, are held. */
  lemma AlignedEndsInside(addr: u64, len: u64)
    requires addr % 0x1000 == 0
    ensures EndsInside(addr, len)
  {
  }

  /** Address a has become allocated, with these attributes. */
  ghost predicate NewlyAllocated(s: Space, s': Space, a: int, flags: u32, prot: Bits) {
    && Total(s'.alloc, a, Any) == Total(s.alloc, a, Any) + 1
    && Total(s'.alloc, a, Exactly(Attr(flags, prot))) == Total(s.alloc, a, Exactly(Attr(flags, prot))) + 1
    && Total(s'.free, a, Any) + 1 == Total(s.free, a, Any)
  }

  /** Address a has become free. */
  ghost predicate NewlyFree(s: Space, s': Space, a: int) {
    && Total(s'.free, a, Any) == Total(s.free, a, Any) + 1
    && Total(s'.alloc, a, Any) + 1 == Total(s.alloc, a, Any)
  }

  /** The caller of vm_space_alloc gets at least what it asked for, in bytes: at an address that is
      left to the allocator always, and at a fixed one exactly when the range ends inside the
      pages that were taken for it. */
  lemma AllocGivesAll(s: Space, ctxFlags: u32, addr: u64, len: u64, flags: u32, prot: Bits)
    requires Valid(s) && NoWrap(addr, len)
    ensures var (s', out) := Allocated(s, ctxFlags, addr, len, flags, prot);
            var fl := GrantedFlags(s, ctxFlags, addr, len, flags);
            out.Placed? ==>
              && 0 < len <= MAX_LEN
              && (addr == BASE_AUTO ==>
                    forall a: int :: out.addr <= a < out.addr + len ==> NewlyAllocated(s, s', a, fl, prot))
              && (addr != BASE_AUTO ==>
                    ((forall a: int :: addr <= a < addr + len ==> NewlyAllocated(s, s', a, fl, prot))
                     <==> EndsInside(addr, len)))
  {
    hide Allocated, Valid, PageLen, PageBase, EndsInside, AllocEffect, NewlyAllocated, GrantedFlags, NoWrap;
    AllocMovesExactly(s, ctxFlags, addr, len, flags, prot);
    PageLenIs(len);
    var (s', out) := Allocated(s, ctxFlags, addr, len, flags, prot);
    if out.Placed? {
      PlacedLen(s, ctxFlags, addr, len, flags, prot);
      PagesHoldIff(addr, len);
      var fl := GrantedFlags(s, ctxFlags, addr, len, flags);
      AllocatedThere(s, s', out.addr, PageLen(len), fl, prot);
      if addr != BASE_AUTO {
        assert forall a: int :: NewlyAllocated(s, s', a, fl, prot) <==> InPages(addr, len, a);
      }
    }
  }

  lemma PlacedLen(s: Space, ctxFlags: u32, addr: u64, len: u64, flags: u32, prot: Bits)
    requires Allocated(s, ctxFlags, addr, len, flags, prot).1.Placed?
    ensures 0 < PageLen(len) && 0 < len
  {
    hide Scan, Place;
  }

  lemma AllocatedThere(s: Space, s': Space, base: int, len: int, flags: u32, prot: Bits)
    requires AllocEffect(s, s', base, len, flags, prot)
    ensures forall a: int :: NewlyAllocated(s, s', a, flags, prot) <==> base <= a < base + len
  {
    forall a: int ensures NewlyAllocated(s, s', a, flags, prot) <==> base <= a < base + len {
      assert Total(s'.alloc, a, Any) == Total(s.alloc, a, Any) + Range(base, len, flags, prot, a, Any);
      assert Total(s.free, a, Any) == Total(s'.free, a, Any) + Range(base, len, Region(flags), {}, a, Any);
    }
  }

  /** vm_space_free gives back the whole range under the same condition. */
  lemma FreeTakesAll(s: Space, addr: u64, len: u64)
    requires Valid(s) && NoWrap(addr, len)
    ensures var (s', out) := Freed(s, addr, len);
            out.Done? ==>
              && 0 < len <= MAX_LEN
              && ((forall a: int :: addr <= a < addr + len ==> NewlyFree(s, s', a)) <==> EndsInside(addr, len))
  {
    hide Freed, Valid, PageLen, PageBase, EndsInside, FreeEffect, NewlyFree, NoWrap;
    FreeMovesExactly(s, addr, len);
    PageLenIs(len);
    var (s', out) := Freed(s, addr, len);
    if out.Done? {
      DoneLen(s, addr, len);
      PagesHoldIff(addr, len);
      FreedThere(s, s', PageBase(addr), PageLen(len), out.flags, out.prot);
      assert forall a: int :: NewlyFree(s, s', a) <==> InPages(addr, len, a);
    }
  }

  lemma DoneLen(s: Space, addr: u64, len: u64)
    requires Freed(s, addr, len).1.Done?
    ensures 0 < PageLen(len) && 0 < len
  {
    hide Scan, Release;
  }

  lemma FreedThere(s: Space, s': Space, base: int, len: int, flags: u32, prot: Bits)
    requires FreeEffect(s, s', base, len, flags, prot)
    ensures forall a: int :: NewlyFree(s, s', a) <==> base <= a < base + len
  {
    forall a: int ensures NewlyFree(s, s', a) <==> base <= a < base + len {
      assert Total(s'.free, a, Any) == Total(s.free, a, Any) + Range(base, len, Region(flags), {}, a, Any);
      assert Total(s.alloc, a, Any) == Total(s'.alloc, a, Any) + Range(base, len, flags, prot, a, Any);
    }
  }

  // ---------------------------------------------------------------- whole runs

  datatype Call = Alloc(addr: u64, len: u64, flags: u32, prot: Bits) | Free(addr: u64, len: u64)

  function Step(s: Space, ctxFlags: u32, c: Call): (Space, Outcome) {
    match c
    case Alloc(addr, len, flags, prot) => Allocated(s, ctxFlags, addr, len, flags, prot)
    case Free(addr, len) => Freed(s, addr, len)
  }

  function Run(s: Space, ctxFlags: u32, calls: seq<Call>): Space
    decreases |calls|
  {
    if calls == [] then s else Run(Step(s, ctxFlags, calls[0]).0, ctxFlags, calls[1..])
  }

  /** Every call of the run finds a spare slot in either list. */
  predicate Spared(s: Space, ctxFlags: u32, calls: seq<Call>)
    decreases |calls|
  {
    calls == [] ||
    (AvailSum(s.free) > 0 && AvailSum(s.alloc) > 0 && Spared(Step(s, ctxFlags, calls[0]).0, ctxFlags, calls[1..]))
  }

  /** The call does not run past 2^64, or is refused. */
  predicate Harmless(s: Space, ctxFlags: u32, c: Call) {
    NoWrap(c.addr, c.len) || Step(s, ctxFlags, c).1.Refused?
  }

  predicate AllHarmless(s: Space, ctxFlags: u32, calls: seq<Call>)
    decreases |calls|
  {
    calls == [] ||
    (Harmless(s, ctxFlags, calls[0]) && AllHarmless(Step(s, ctxFlags, calls[0]).0, ctxFlags, calls[1..]))
  }

  ghost predicate AlwaysValid(s: Space, ctxFlags: u32, calls: seq<Call>)
    decreases |calls|
  {
    Valid(s) && (calls == [] || AlwaysValid(Step(s, ctxFlags, calls[0]).0, ctxFlags, calls[1..]))
  }

  lemma AllocStep(s: Space, ctxFlags: u32, addr: u64, len: u64, flags: u32, prot: Bits)
    requires Valid(s) && AvailSum(s.free) > 0 && AvailSum(s.alloc) > 0
    ensures var (s', out) := Allocated(s, ctxFlags, addr, len, flags, prot);
            && (Valid(s') <==> NoWrap(addr, len) || out.Refused?)
            && (Valid(s') ==> forall a: int :: Cover(s', a) == Cover(s, a))
  {
    hide Valid, Allocated, Cover;
    PlacedIffFound(s, ctxFlags, addr, len, flags, prot);
    var (s', out) := Allocated(s, ctxFlags, addr, len, flags, prot);
    if out.Placed? {
      AllocValidIff(s, ctxFlags, addr, len, flags, prot);
      if NoWrap(addr, len) {
        AllocMovesExactly(s, ctxFlags, addr, len, flags, prot);
        ValidLists(s');
        AllocEffectKeepsValid(s, s', out.addr, PageLen(len), GrantedFlags(s, ctxFlags, addr, len, flags), prot);
      }
    }
  }

  lemma ValidLists(s: Space)
    requires Valid(s)
    ensures ListOk(s.free) && ListOk(s.alloc)
  {
  }

  lemma FreeStep(s: Space, addr: u64, len: u64)
    requires Valid(s) && AvailSum(s.free) > 0 && AvailSum(s.alloc) > 0
    ensures var (s', out) := Freed(s, addr, len);
            && (Valid(s') <==> NoWrap(addr, len) || out.Refused?)
            && (Valid(s') ==> forall a: int :: Cover(s', a) == Cover(s, a))
  {
    hide Valid, Freed, Cover;
    DoneIffFound(s, addr, len);
    var (s', out) := Freed(s, addr, len);
    if out.Done? {
      FreeValidIff(s, addr, len);
      if NoWrap(addr, len) {
        FreeMovesExactly(s, addr, len);
        ValidLists(s');
        FreeEffectKeepsValid(s, s', PageBase(addr), PageLen(len), out.flags, out.prot);
      }
    } else {
      ValidLists(s');
      SameMapsAreValid(s, s');
    }
  }

  /** A call with spare slots leaves a valid space exactly when it is harmless; then the union
      of the two maps is what it was. */
  lemma StepKeeps(s: Space, ctxFlags: u32, c: Call)
    requires Valid(s) && AvailSum(s.free) > 0 && AvailSum(s.alloc) > 0
    ensures Valid(Step(s, ctxFlags, c).0) <==> Harmless(s, ctxFlags, c)
    ensures Harmless(s, ctxFlags, c) ==> forall a: int :: Cover(Step(s, ctxFlags, c).0, a) == Cover(s, a)
  {
    hide Valid, Allocated, Freed, Cover, NoWrap;
    match c
    case Alloc(addr, len, flags, prot) => AllocStep(s, ctxFlags, addr, len, flags, prot);
    case Free(addr, len) => FreeStep(s, addr, len);
  }

  /** Over any run of allocations and frees with spare slots and without a served request that
      wraps, the two maps stay disjoint and their union never changes: no address is lost,
      duplicated or invented. */
  lemma {:induction false} RunConserves(s: Space, ctxFlags: u32, calls: seq<Call>)
    requires Valid(s) && Spared(s, ctxFlags, calls) && AllHarmless(s, ctxFlags, calls)
    ensures Valid(Run(s, ctxFlags, calls))
    ensures forall a: int :: Cover(Run(s, ctxFlags, calls), a) == Cover(s, a)
    decreases |calls|
  {
    if calls != [] {
      StepKeeps(s, ctxFlags, calls[0]);
      RunConserves(Step(s, ctxFlags, calls[0]).0, ctxFlags, calls[1..]);
    }
  }

  /** The space stays valid all along a run exactly when no served request of it wraps. */
  lemma {:induction false} RunValidIff(s: Space, ctxFlags: u32, calls: seq<Call>)
    requires Valid(s) && Spared(s, ctxFlags, calls)
    ensures AlwaysValid(s, ctxFlags, calls) <==> AllHarmless(s, ctxFlags, calls)
    decreases |calls|
  {
    if calls != [] {
      StepKeeps(s, ctxFlags, calls[0]);
      if Harmless(s, ctxFlags, calls[0]) {
        RunValidIff(Step(s, ctxFlags, calls[0]).0, ctxFlags, calls[1..]);
      }
    }
  }

  // ---------------------------------------------------------------- the space vm_ctx_init leaves

  // vmMax is what cpu_virt_max returns: 2^v - 1 for the v bits of a linear address.

  /** How long each half of the address space is. */
  function HalfLen(vmMax: u64): (h: u64)
    ensures 0 < h <= HALF
  {
    vmMax / 2 + 1
  }

  /** From vm_base, which is ~0 - (vm_max >> 1), to the end. */
  function HighHalf(vmMax: u64): Extent {
    Extent(TWO64 - HalfLen(vmMax), HalfLen(vmMax), HIGH_MEM, {})
  }

  function LowHalf(vmMax: u64): Extent {
    Extent(0, HalfLen(vmMax), LOW_MEM, {})
  }

  /** The addresses that the processor can translate; between the halves is a hole. */
  predicate Canonical(vmMax: u64, a: int) {
    0 <= a < HalfLen(vmMax) || TWO64 - HalfLen(vmMax) <= a < TWO64
  }

  /** One header for each list, with freeCap and allocCap slots, and both halves inserted into the
      free list, whatever the insertions answer. */
  function InitialSpace(vmMax: u64, freeCap: nat, allocCap: nat): Space {
    var f := Inserted([Hdr(freeCap, freeCap, [])], HighHalf(vmMax)).0;
    Space(Inserted(f, LowHalf(vmMax)).0, [Hdr(allocCap, allocCap, [])])
  }

  /** The slots of a first header: it always is a page, of which 72 bytes are the header itself
      and every extent takes 40. */
  const PAGE_SLOTS: nat := (0x1000 - 72) / 40

  lemma EmptyHeader(cap: nat, a: int, q: Query)
    ensures ListOk([Hdr(cap, cap, [])]) && Total([Hdr(cap, cap, [])], a, q) == 0
    ensures AvailSum([Hdr(cap, cap, [])]) == cap
  {
    assert HdrOk(Hdr(cap, cap, []));
    assert [Hdr(cap, cap, [])][1..] == [];
  }

  /** Both insertions succeed: exactly the addresses of the two halves are free, once each, and
      nothing is allocated. */
  lemma InitialSpaceIsWhole(vmMax: u64, freeCap: nat, allocCap: nat)
    requires freeCap >= 2
    ensures var s := InitialSpace(vmMax, freeCap, allocCap);
            && Valid(s) && AvailSum(s.free) + 2 >= freeCap && AvailSum(s.alloc) == allocCap
            && (forall a: int :: Cover(s, a) == if Canonical(vmMax, a) then 1 else 0)
            && (forall a: int, q :: Total(s.free, a, q) == Cov(HighHalf(vmMax), a, q) + Cov(LowHalf(vmMax), a, q))
            && (forall a: int, q :: Total(s.alloc, a, q) == 0)
  {
    var hs := [Hdr(freeCap, freeCap, [])];
    var s := InitialSpace(vmMax, freeCap, allocCap);
    var high, low := HighHalf(vmMax), LowHalf(vmMax);
    var f := Inserted(hs, high).0;
    forall a: int, q ensures Total(hs, a, q) == 0 && Total(s.alloc, a, q) == 0 && ListOk(hs) && ListOk(s.alloc) {
      EmptyHeader(freeCap, a, q);
      EmptyHeader(allocCap, a, q);
    }
    EmptyHeader(freeCap, 0, Any);
    EmptyHeader(allocCap, 0, Any);
    InsertStatus(hs, high);
    InsertAddsExactly(hs, high);
    InsertStatus(f, low);
    InsertAddsExactly(f, low);
    hide Inserted, ListOk, AvailSum;
    assert forall a: int, q :: Total(s.free, a, q) == Cov(high, a, q) + Cov(low, a, q);
  }

  /** From the space vm_ctx_init leaves, after any run with spare slots and without a served
      request that wraps, every address of the two halves is either free or allocated, and no
      other address ever is. */
  lemma RunFromStart(vmMax: u64, ctxFlags: u32, calls: seq<Call>)
    requires Spared(InitialSpace(vmMax, PAGE_SLOTS, PAGE_SLOTS), ctxFlags, calls)
    requires AllHarmless(InitialSpace(vmMax, PAGE_SLOTS, PAGE_SLOTS), ctxFlags, calls)
    ensures var s := Run(InitialSpace(vmMax, PAGE_SLOTS, PAGE_SLOTS), ctxFlags, calls);
            && Valid(s)
            && forall a: int ::
                 if Canonical(vmMax, a) then Total(s.free, a, Any) + Total(s.alloc, a, Any) == 1
                 else Total(s.free, a, Any) == 0 && Total(s.alloc, a, Any) == 0
  {
    var s0 := InitialSpace(vmMax, PAGE_SLOTS, PAGE_SLOTS);
    InitialSpaceIsWhole(vmMax, PAGE_SLOTS, PAGE_SLOTS);
    RunConserves(s0, ctxFlags, calls);
    hide Run, InitialSpace, Valid, Canonical;
    var s := Run(s0, ctxFlags, calls);
    forall a: int
      ensures if Canonical(vmMax, a) then Total(s.free, a, Any) + Total(s.alloc, a, Any) == 1
              else Total(s.free, a, Any) == 0 && Total(s.alloc, a, Any) == 0
    {
      assert Cover(s, a) == Cover(s0, a);
    }
  }

  /** What is granted after such a run, at a fixed address or not, is an address range the
      processor can translate, without a part of the hole. */
  lemma GrantsAreCanonical(vmMax: u64, ctxFlags: u32, calls: seq<Call>, addr: u64, len: u64, flags: u32, prot: Bits)
    requires Spared(InitialSpace(vmMax, PAGE_SLOTS, PAGE_SLOTS), ctxFlags, calls)
    requires AllHarmless(InitialSpace(vmMax, PAGE_SLOTS, PAGE_SLOTS), ctxFlags, calls)
    requires NoWrap(addr, len)
    ensures var out := Allocated(Run(InitialSpace(vmMax, PAGE_SLOTS, PAGE_SLOTS), ctxFlags, calls), ctxFlags, addr, len,
                                 flags, prot).1;
            out.Placed? ==> forall a: int :: out.addr <= a < out.addr + PageLen(len) ==> Canonical(vmMax, a)
  {
    RunFromStart(vmMax, ctxFlags, calls);
    hide Run, InitialSpace, Valid, Canonical, Allocated, Spared, AllHarmless;
    var s := Run(InitialSpace(vmMax, PAGE_SLOTS, PAGE_SLOTS), ctxFlags, calls);
    AllocMovesExactly(s, ctxFlags, addr, len, flags, prot);
    var (s', out) := Allocated(s, ctxFlags, addr, len, flags, prot);
    if out.Placed? {
      var fl := GrantedFlags(s, ctxFlags, addr, len, flags);
      forall a: int | out.addr <= a < out.addr + PageLen(len) ensures Canonical(vmMax, a) {
        assert Total(s.free, a, Any) == Total(s'.free, a, Any) + Range(out.addr, PageLen(len), Region(fl), {}, a, Any);
      }
    }
  }

  /** On a processor with 48 bits the halves are those below 2^47 and from 2^64 - 2^47 on, and no
      run makes 2^47 free or allocated. */
  lemma HoleOf48Bits(ctxFlags: u32, calls: seq<Call>)
    requires Spared(InitialSpace(0xFFFF_FFFF_FFFF, PAGE_SLOTS, PAGE_SLOTS), ctxFlags, calls)
    requires AllHarmless(InitialSpace(0xFFFF_FFFF_FFFF, PAGE_SLOTS, PAGE_SLOTS), ctxFlags, calls)
    ensures LowHalf(0xFFFF_FFFF_FFFF) == Extent(0, 0x8000_0000_0000, LOW_MEM, {})
    ensures HighHalf(0xFFFF_FFFF_FFFF) == Extent(0xFFFF_8000_0000_0000, 0x8000_0000_0000, HIGH_MEM, {})
    ensures Cover(Run(InitialSpace(0xFFFF_FFFF_FFFF, PAGE_SLOTS, PAGE_SLOTS), ctxFlags, calls), 0x8000_0000_0000) == 0
  {
    RunFromStart(0xFFFF_FFFF_FFFF, ctxFlags, calls);
    assert !Canonical(0xFFFF_FFFF_FFFF, 0x8000_0000_0000);
  }
}
