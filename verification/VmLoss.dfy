/** The retry of vm_space_alloc (mm/vm_space.c) that inserts the wrong piece, at a concrete space:
    the first header of the free list, a page, is full. */
module VmLosses {
  import opened Sequences
  import opened Extents
  import opened ExtentLists
  import opened VmSpace
  import opened VmContexts
  import opened VmTracking
  import opened VmRetries

  /** Three pages in every 16. */
  function Island(i: nat): Extent
    requires i < PAGE_SLOTS
  {
    Extent(HALF + 0x1_0000 * i, 0x3000, HIGH_MEM, {})
  }

  function Islands(): (s: seq<Extent>)
    ensures |s| == PAGE_SLOTS && forall i :: 0 <= i < |s| ==> s[i] == Island(i)
  {
    seq(PAGE_SLOTS, i requires 0 <= i < PAGE_SLOTS => Island(i))
  }

  /** As many islands as a page has slots, and nothing allocated. */
  function FullSpace(): Space {
    Space([Hdr(PAGE_SLOTS, 0, Islands())], [Hdr(PAGE_SLOTS, PAGE_SLOTS, [])])
  }

  lemma {:induction false} IslandCount(k: nat, a: int, q: Query)
    requires k <= PAGE_SLOTS
    ensures Count(Islands()[k..], a, q) <= 1
    ensures Count(Islands()[k..], a, q) > 0 ==> HALF + 0x1_0000 * k <= a && Matches(q, HIGH_MEM, {})
    decreases PAGE_SLOTS - k
  {
    hide Islands;
    if k < PAGE_SLOTS {
      IslandCount(k + 1, a, q);
      assert Islands()[k..][0] == Island(k) && Islands()[k..][1..] == Islands()[k + 1..];
    }
  }

  lemma IslandsApart(i: nat, j: nat)
    requires i < PAGE_SLOTS && j < PAGE_SLOTS
    ensures WellFormed(Island(i)) && (i != j ==> !Joinable(Island(i), Island(j)))
  {
    if i != j {
      JoinableMeansAdjacent(Island(i), Island(j));
    }
  }

  lemma FullIsValid()
    ensures Valid(FullSpace()) && AvailSum(FullSpace().alloc) == PAGE_SLOTS
  {
    hide Islands, Island, Joinable, WellFormed;
    var s := FullSpace();
    forall i: nat, j: nat | i < PAGE_SLOTS && j < PAGE_SLOTS
      ensures WellFormed(Island(i)) && (i != j ==> !Joinable(Island(i), Island(j)))
    {
      IslandsApart(i, j);
    }
    assert HdrOk(s.free[0]) && HdrOk(s.alloc[0]);
    assert s.free[1..] == [] && s.alloc[1..] == [];
    forall a: int, q
      ensures Total(s.alloc, a, q) == 0 && Total(s.free, a, q) <= 1
      ensures Total(s.free, a, q) > 0 ==> Matches(q, HIGH_MEM, {})
    {
      IslandCount(0, a, q);
      assert Islands()[0..] == Islands();
    }
  }

  const MIDDLE: u64 := 0x8000_0000_0000_1000
  const LEFT := Extent(0x8000_0000_0000_0000, 0x1000, HIGH_MEM, {})
  const RIGHT := Extent(0x8000_0000_0000_2000, 0x1000, HIGH_MEM, {})

  /** The middle page of the first island is asked for. */
  lemma FirstIsFound()
    ensures var req := AllocRequest(HIGH_MEM, MIDDLE, 0x1000, 8);
            && req == Extent(MIDDLE, 0x1000, 0, {}) && !AllocRefusedEarly(HIGH_MEM, MIDDLE, 8)
            && Extracted(FullSpace().free, req) ==
                 ExtractResult([Hdr(PAGE_SLOTS, 1, RemoveAt(Islands(), 0))], OK, Island(0))
            && Split(Island(0), MIDDLE, 0x1000) == SplitResult(1, LEFT, RIGHT)
  {
    var hs := FullSpace().free;
    var req := Extent(MIDDLE, 0x1000, 0, {});
    assert InRange(hs[0].busy[0].base, hs[0].busy[0].length, req.base, req.length);
    assert Scan(hs, req, 0, 0, None) == Some(Pos(0, 0));
    assert TakeAt(hs, Pos(0, 0)) == [Hdr(PAGE_SLOTS, 1, RemoveAt(Islands(), 0))];
  }

  lemma PiecesApart(i: nat)
    requires 0 < i < PAGE_SLOTS
    ensures !Joinable(LEFT, Island(i)) && !Joinable(RIGHT, Island(i)) && !Joinable(RIGHT, LEFT)
  {
    assert WellFormed(LEFT) && WellFormed(RIGHT) && WellFormed(Island(i));
    JoinableMeansAdjacent(LEFT, Island(i));
    JoinableMeansAdjacent(RIGHT, Island(i));
    JoinableMeansAdjacent(RIGHT, LEFT);
  }

  /** The left piece takes the slot of the island, and the right one finds none. */
  lemma LeftTakesSlot()
    ensures var rest := RemoveAt(Islands(), 0);
            && Inserted([Hdr(PAGE_SLOTS, 1, rest)], LEFT) == ([Hdr(PAGE_SLOTS, 0, rest + [LEFT])], OK)
            && Inserted([Hdr(PAGE_SLOTS, 0, rest + [LEFT])], RIGHT).1 == NOMEM
  {
    var rest := RemoveAt(Islands(), 0);
    hide Joinable, Islands;
    forall i | 0 <= i < |rest| ensures !Joinable(LEFT, rest[i]) && !Joinable(RIGHT, rest[i]) {
      PiecesApart(i + 1);
    }
    PiecesApart(1);
    InsertIntoOne(PAGE_SLOTS, 1, rest, LEFT);
    InsertIntoOne(PAGE_SLOTS, 0, rest + [LEFT], RIGHT);
  }

  lemma FullLoses()
    ensures LosesRight(FullSpace(), HIGH_MEM, MIDDLE, 0x1000, 8)
  {
    FirstIsFound();
    LeftTakesSlot();
  }

  /** The page manager agrees, some extent holds a page, and its page can be recorded. */
  lemma YesMeansOk(l: Lists, pm: Pages)
    requires WellKept(l.kernel) && pm.backend && pm.storage && AvailSum(l.kernel.alloc) > 0
    requires exists p :: ValidPos(l.kernel.free, p) && Fits(At(l.kernel.free, p), SLOT_REQUEST)
    ensures var (l', st) := Tracked(l, KernelFree, PAGE_SLOTS, pm);
            st == OK && AvailSum(l'.kernel.alloc) + 1 >= AvailSum(l.kernel.alloc)
  {
    ExtractIsBestFit(l.kernel.free, SLOT_REQUEST);
    RecordingSucceeds(l, KernelFree, PAGE_SLOTS);
    hide Inserted, Extracted, WellKept, SlotExtent;
    TrackedIs(l, KernelFree, PAGE_SLOTS, pm);
    var x := Extracted(l.kernel.free, SLOT_REQUEST);
    InsertTakesOne(l.kernel.alloc, SlotExtent(x.ext));
  }

  lemma AfterLeft() returns (s: Space)
    ensures s == Space([Hdr(PAGE_SLOTS, 0, RemoveAt(Islands(), 0) + [LEFT])], FullSpace().alloc)
    ensures WellKept(s) && AvailSum(s.alloc) == PAGE_SLOTS && Inserted(s.free, RIGHT).1 == NOMEM
    ensures exists p :: ValidPos(s.free, p) && Fits(At(s.free, p), SLOT_REQUEST)
  {
    FullIsValid();
    FirstIsFound();
    LeftTakesSlot();
    var hs := [Hdr(PAGE_SLOTS, 1, RemoveAt(Islands(), 0))];
    s := Space([Hdr(PAGE_SLOTS, 0, RemoveAt(Islands(), 0) + [LEFT])], FullSpace().alloc);
    FoundFits(FullSpace(), HIGH_MEM, MIDDLE, 0x1000, 8);
    assert At(s.free, Pos(0, 0)) == Island(1) && Fits(Island(1), SLOT_REQUEST);
    hide Inserted, Extracted, WellKept, Islands;
    TakenKeeps(FullSpace(), hs, Island(0));
    assert AvailSum(hs) > 0;
    LeftPiece(Space(hs, FullSpace().alloc), LEFT);
  }

  lemma RightGoesThrough(s: Space, first: Replies)
    requires s == Space([Hdr(PAGE_SLOTS, 0, RemoveAt(Islands(), 0) + [LEFT])], FullSpace().alloc)
    requires first[0] == Pages(true, true)
    ensures var (s1, st) := RightPiece(s, SplitResult(1, LEFT, RIGHT), first);
            st == OK && WellKept(s1) && AvailSum(s1.alloc) > 0
  {
    hide Inserted, Tracked, WellKept, AvailSum, Islands;
    var t := AfterLeft();
    InsertFree(s, RIGHT);
    YesMeansOk(Lists(s, []), first[0]);
    EnlargedKeeps(s, KernelFree, first);
    InsertFree(Enlarged(s, KernelFree, first).0, LEFT);
  }

  lemma MiddleIsRecorded(s: Space, second: Replies)
    requires WellKept(s) && AvailSum(s.alloc) > 0
    ensures Record(s, Extent(MIDDLE, 0x1000, 10, {}), second).1 == OK
  {
    assert AllocExtent(Extent(MIDDLE, 0x1000, 10, {}));
    hide Inserted, WellKept, AvailSum, Enlarged, AllocExtent;
    InsertAlloc(s, Extent(MIDDLE, 0x1000, 10, {}));
  }

  lemma MiddlePlacing(first: Replies, second: Replies)
    requires first[0] == Pages(true, true)
    ensures Placing(Space([Hdr(PAGE_SLOTS, 1, RemoveAt(Islands(), 0))], FullSpace().alloc), Island(0), MIDDLE, 0x1000,
                    8, {}, first, second).1 == Placed(MIDDLE)
  {
    FirstIsFound();
    LeftTakesSlot();
    assert WithRegion(8, HIGH_MEM) == 10;
    hide Inserted, Extracted, WellKept, AvailSum, RightPiece, Split, Record, Island, Islands, WithRegion;
    var s := Space([Hdr(PAGE_SLOTS, 0, RemoveAt(Islands(), 0) + [LEFT])], FullSpace().alloc);
    RightGoesThrough(s, first);
    MiddleIsRecorded(RightPiece(s, SplitResult(1, LEFT, RIGHT), first).0, second);
  }

  lemma MiddleIsPlaced(first: Replies, second: Replies)
    requires first[0] == Pages(true, true)
    ensures Allocating(FullSpace(), HIGH_MEM, MIDDLE, 0x1000, 8, {}, first, second).1 == Placed(MIDDLE)
  {
    FirstIsFound();
    hide Placing, Islands, Island, Extracted, AllocRefusedEarly, AllocRequest;
    assert EffectiveFlags(HIGH_MEM, MIDDLE, 8) == 8;
    MiddlePlacing(first, second);
  }

  lemma FirstIslandIsFree(a: int)
    requires HALF <= a < HALF + 0x3000
    ensures Cover(FullSpace(), a) == 1
  {
    FullIsValid();
    hide Valid, Islands;
    TotalCovers(FullSpace().free, 0, 0, a, Any);
    IslandCount(0, a, Any);
    assert FullSpace().free[0].busy[0] == Island(0);
    assert Cover(FullSpace(), a) <= 1 by {
      OneAtMost(FullSpace(), a);
    }
  }

  lemma OneAtMost(s: Space, a: int)
    requires Valid(s)
    ensures Cover(s, a) <= 1
  {
  }

  /** With the first header full, a page in the middle of an extent of three is granted, and the
      page right of it is neither free nor allocated any more, while the left one is there twice. */
  lemma RetryLosesPage(first: Replies, second: Replies)
    requires first[0] == Pages(true, true)
    ensures Valid(FullSpace()) && Cover(FullSpace(), RIGHT.base) == 1
    ensures var (s', out) := Allocating(FullSpace(), HIGH_MEM, MIDDLE, 0x1000, 8, {}, first, second);
            out == Placed(MIDDLE) && !Valid(s') && Cover(s', RIGHT.base) == 0 && Cover(s', LEFT.base) == 2
  {
    hide Valid, Cover, FullSpace, Allocating, Inserted, Extracted, LosesRight;
    FullIsValid();
    MiddleIsPlaced(first, second);
    FullLoses();
    FirstIslandIsFree(RIGHT.base);
    FirstIslandIsFree(LEFT.base);
    MiddleCut();
    AllocatingIff(FullSpace(), HIGH_MEM, MIDDLE, 0x1000, 8, {}, first, second);
  }

  lemma MiddleCut()
    ensures CutOf(FullSpace(), HIGH_MEM, MIDDLE, 0x1000, 8) == SplitResult(1, LEFT, RIGHT)
    ensures NoWrap(MIDDLE, 0x1000)
  {
    FirstIsFound();
  }
}
