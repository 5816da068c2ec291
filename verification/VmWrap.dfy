/** Requests that run past 2^64, at concrete inputs: vm_space_alloc and vm_space_free
    (mm/vm_space.c) serve them, and leave a space that is not valid. */
module VmWraps {
  import opened Extents
  import opened ExtentLists
  import opened VmSpace

  const EMPTY := [Hdr(4, 4, [])]

  function One(e: Extent): seq<Hdr> {
    [Hdr(4, 3, [e])]
  }

  lemma OneMap(e: Extent, a: int, q: Query)
    ensures Total(One(e), a, q) == Cov(e, a, q) && Total(EMPTY, a, q) == 0
  {
    var hs := One(e);
    assert hs[0].busy[1..] == [] && hs[1..] == [] && EMPTY[1..] == [];
    assert Count(hs[0].busy, a, q) == Cov(e, a, q);
  }

  lemma SmallLists(e: Extent)
    requires WellFormed(e)
    ensures ListOk(One(e)) && ListOk(EMPTY)
  {
    assert HdrOk(One(e)[0]) && HdrOk(EMPTY[0]);
  }

  lemma OnlyFreeIsValid(e: Extent)
    requires WellFormed(e) && e.prot == {} && e.flags == Region(e.flags)
    ensures Valid(Space(One(e), EMPTY))
  {
    SmallLists(e);
    forall a: int, q ensures Total(One(e), a, q) == Cov(e, a, q) && Total(EMPTY, a, q) == 0 {
      OneMap(e, a, q);
    }
  }

  lemma OnlyAllocatedIsValid(e: Extent)
    requires WellFormed(e) && TypeOk(e.flags)
    ensures Valid(Space(EMPTY, One(e)))
  {
    SmallLists(e);
    forall a: int, q ensures Total(One(e), a, q) == Cov(e, a, q) && Total(EMPTY, a, q) == 0 {
      OneMap(e, a, q);
    }
  }

  lemma OnlyOneFound(e: Extent, req: Extent)
    requires req.base != BASE_AUTO && 0 < req.length <= e.length && InRange(e.base, e.length, req.base, req.length)
    ensures Extracted(One(e), req) == ExtractResult(EMPTY, OK, e)
  {
    assert Scan(One(e), req, 0, 0, None) == Some(Pos(0, 0));
    assert TakeAt(One(e), Pos(0, 0)) == EMPTY;
  }

  lemma FirstInsert(cap: nat, e: Extent)
    requires 0 < cap && RegionOk(e.flags) && 0 < e.length
    ensures Inserted([Hdr(cap, cap, [])], e) == ([Hdr(cap, cap - 1, [e])], OK)
  {
    InsertIntoOne(cap, cap, [], e);
    assert [] + [e] == [e];
  }

  const WRAP_ADDR: u64 := 0xFFFF_FFFF_FFFF_F000
  const WRAP_LEN: u64 := 0x2000

  lemma WrapRequest()
    ensures !NoWrap(WRAP_ADDR, WRAP_LEN) && PageBase(WRAP_ADDR) == WRAP_ADDR && PageLen(WRAP_LEN) == WRAP_LEN
    ensures EffectiveFlags(HIGH_MEM, WRAP_ADDR, ALLOCATED) == ALLOCATED
    ensures !AllocRefusedEarly(HIGH_MEM, WRAP_ADDR, ALLOCATED)
  {
  }

  const TOP_FREE := Extent(0xFFFF_FFFF_FFFF_E000, 0x2000, HIGH_MEM, {})
  const TOP_ALLOCATED := Extent(0xFFFF_FFFF_FFFF_E000, 0x2000, 10, {})

  /** The last 8 KiB free and nothing allocated: an allocation of 8 KiB whose second page lies
      past 2^64 is placed all the same, and leaves an invalid space. */
  lemma WrapBreaksAlloc()
    ensures var s := Space(One(TOP_FREE), EMPTY);
            var (s', out) := Allocated(s, HIGH_MEM, WRAP_ADDR, WRAP_LEN, ALLOCATED, {});
            Valid(s) && out == Placed(WRAP_ADDR) && !Valid(s')
  {
    var s := Space(One(TOP_FREE), EMPTY);
    WrapRequest();
    OnlyFreeIsValid(TOP_FREE);
    OnlyOneFound(TOP_FREE, AllocRequest(HIGH_MEM, WRAP_ADDR, WRAP_LEN, ALLOCATED));
    SlotsOfOne(TOP_FREE);
    PlacedIffFound(s, HIGH_MEM, WRAP_ADDR, WRAP_LEN, ALLOCATED, {});
    PlacedWhere(s, HIGH_MEM, WRAP_ADDR, WRAP_LEN, ALLOCATED, {});
    AllocValidIff(s, HIGH_MEM, WRAP_ADDR, WRAP_LEN, ALLOCATED, {});
  }

  /** The last 8 KiB allocated: freeing 8 KiB from its second page on reports success and leaves
      an invalid space, in which everything from the second page of memory on is allocated. */
  lemma WrapBreaksFree()
    ensures var s := Space(EMPTY, One(TOP_ALLOCATED));
            var (s', out) := Freed(s, WRAP_ADDR, WRAP_LEN);
            && Valid(s) && out == Done(10, {}) && !Valid(s')
            && Total(s'.alloc, 0x1000, Any) == 1
  {
    var s := Space(EMPTY, One(TOP_ALLOCATED));
    WrapRequest();
    OnlyAllocatedIsValid(TOP_ALLOCATED);
    OnlyOneFound(TOP_ALLOCATED, Extent(WRAP_ADDR, WRAP_LEN, 0, {}));
    SlotsOfOne(TOP_ALLOCATED);
    WrapReleased();
    hide Valid, Extracted, Release, NoWrap, PageBase, PageLen;
    DoneIffFound(s, WRAP_ADDR, WRAP_LEN);
    FreeValidIff(s, WRAP_ADDR, WRAP_LEN);
  }

  lemma SlotsOfOne(e: Extent)
    ensures AvailSum(One(e)) == 3 && AvailSum(EMPTY) == 4
  {
    assert One(e)[1..] == [] && EMPTY[1..] == [];
  }

  /** The cut of the wrapping free: the remainder starts again near address zero. */
  lemma WrapReleased()
    ensures var (s', out) := Release(Space(EMPTY, EMPTY), TOP_ALLOCATED, WRAP_ADDR, WRAP_LEN);
            out == Done(10, {}) && Total(s'.alloc, 0x1000, Any) == 1
  {
    var left := Extent(0xFFFF_FFFF_FFFF_E000, 0x1000, 10, {});
    var right := Extent(0x1000, 0xFFFF_FFFF_FFFF_F000, 10, {});
    assert Split(TOP_ALLOCATED, WRAP_ADDR, WRAP_LEN) == SplitResult(1, left, right);
    TwoInserts(left, right, 0x1000);
    FirstInsert(4, Extent(WRAP_ADDR, WRAP_LEN, 2, {}));
    assert !IsLocked(10) && Region(10) == 2;
    hide Inserted, Split;
  }

  /** Inserting two extents that cannot be joined into one empty header. */
  lemma TwoInserts(x: Extent, y: Extent, a: int)
    requires RegionOk(x.flags) && 0 < x.length && RegionOk(y.flags) && 0 < y.length && !Joinable(y, x)
    ensures Inserted(EMPTY, x) == (One(x), OK)
    ensures Inserted(One(x), y) == ([Hdr(4, 2, [x, y])], OK)
    ensures Total([Hdr(4, 2, [x, y])], a, Any) == Cov(x, a, Any) + Cov(y, a, Any)
  {
    FirstInsert(4, x);
    assert FirstJoin(One(x)[0].busy, y, 0) == 1 && Pick(One(x), 1) == 0;
    assert [x] + [y] == [x, y];
    assert One(x)[0 := Hdr(4, 2, [x, y])] == [Hdr(4, 2, [x, y])];
    var hs := [Hdr(4, 2, [x, y])];
    assert hs[1..] == [] && hs[0].busy[1..] == [y] && [y][1..] == [];
    assert Count([y], a, Any) == Cov(y, a, Any);
  }
}
