/** The blocks of the kernel heap (mm/liballoc.c) as values: majors are runs of pages obtained
    from the virtual memory manager, each holding minors in address order with gaps left
    implicit between them. */
module HeapShapes {
  import opened Sequences

  /** sizeof(struct liballoc_minor): prev, next, block, magic, size, req_size. The prev, next and
      block pointers are the minor's place in its major here. addr is the address of the header. */
  datatype Minor = Minor(addr: nat, size: nat, req: nat) {
    function End(): nat {
      addr + 48 + size
    }

    /** The address handed to the caller. */
    function User(): nat {
      Aligned(addr + 48)
    }
  }

  /** A major, its header of 48 bytes at addr. prev and next are its place in the list. */
  datatype Major = Major(addr: nat, pages: nat, size: nat, usage: nat, minors: seq<Minor>) {
    function End(): nat {
      addr + size
    }
  }

  /** 2^64: addresses and size_t wrap here. */
  const WORD: nat := 0x1_0000_0000_0000_0000

  function Wrap(x: nat): nat
    requires x < 2 * WORD
  {
    if x < WORD then x else x - WORD
  }

  // ---------------------------------------------------------------- alignment

  function Pad(p: nat): (d: nat)
    ensures d < 16 && (p + d) % 16 == 0
  {
    if p % 16 == 0 then 0 else 16 - p % 16
  }

  /** Where ALIGN moves a pointer that is not at the very end of the address space. */
  function Aligned(p: nat): (q: nat)
    ensures q % 16 == 0 && p + 16 <= q < p + 32
  {
    p + 16 + Pad(p)
  }

  // ---------------------------------------------------------------- sizes

  /** What a request takes in a block, next to its header: ALIGNMENT + ALIGN_INFO more. */
  function Padded(req: nat): nat
    requires req < WORD
  {
    Wrap(req + 32)
  }

  /** A request whose padded size wraps around to 0 is served as a request for one byte. */
  function Asked(req: nat): nat
    requires req < WORD
  {
    if Padded(req) == 0 then 1 else req
  }

  /** The pages asked for when a new major must hold size bytes. */
  function PagesFor(size: nat): nat
    requires size < WORD
  {
    var st := Wrap(size + 393216);
    var pages := if st % 4096 == 0 then st / 4096 else st / 4096 + 1;
    if pages < 256 then 256 else pages
  }

  /** As few pages as hold the size and the slack the source adds, which is 96 bytes for every byte of
      a page, but at least 256. */
  lemma PagesForIs(size: nat)
    requires size + 96 * 4096 < WORD
    ensures var pages := PagesFor(size);
            && pages >= 256 && 4096 * pages >= size + 96 * 4096
            && (pages > 256 ==> 4096 * (pages - 1) < size + 96 * 4096)
  {
  }

  /** The requests that the size computations survive. */
  predicate Servable(req: nat) {
    req + 32 + 393216 < WORD
  }

  /** A padded size holds the request and its alignment, and a new major of PagesFor pages has
      room for it, exactly for servable requests: beyond, one of the sums wraps around and
      kmalloc writes a minor that does not fit its major, or too small a one. */
  lemma ServableIff(req: nat)
    requires req < WORD
    ensures Servable(req) <==>
            && req + 32 <= Padded(req)
            && 48 + 48 + Padded(req) <= 4096 * PagesFor(Padded(req))
  {
  }

  // ---------------------------------------------------------------- gaps of one major

  function GapStart(a: Major, k: nat): nat
    requires k <= |a.minors|
  {
    if k == 0 then a.addr + 48 else a.minors[k - 1].End()
  }

  function GapEnd(a: Major, k: nat): nat
    requires k <= |a.minors|
  {
    if k == |a.minors| then a.End() else a.minors[k].addr
  }

  predicate Fits(a: Major, k: nat, need: nat)
    requires k <= |a.minors|
  {
    GapStart(a, k) + need <= GapEnd(a, k)
  }

  predicate HasGap(a: Major, need: nat) {
    exists k :: 0 <= k <= |a.minors| && Fits(a, k, need)
  }

  function Sizes(ms: seq<Minor>): nat {
    if ms == [] then 0 else ms[0].size + Sizes(ms[1..])
  }

  /** Minors in address order, disjoint, inside the block behind its header; usage exact; each
      minor large enough for what was asked for plus alignment. */
  predicate MajorOk(a: Major) {
    && 0 < a.addr && a.size == 4096 * a.pages && a.End() <= WORD
    && (forall k :: 0 <= k <= |a.minors| ==> GapStart(a, k) <= GapEnd(a, k))
    && (forall k :: 0 <= k < |a.minors| ==> a.minors[k].req + 32 <= a.minors[k].size)
    && a.usage == 48 + 48 * |a.minors| + Sizes(a.minors)
  }

  lemma {:induction false} SizesAppend(s: seq<Minor>, t: seq<Minor>)
    ensures Sizes(s + t) == Sizes(s) + Sizes(t)
  {
    if s == [] {
      assert s + t == t;
    } else {
      SizesAppend(s[1..], t);
      assert (s + t)[1..] == s[1..] + t;
    }
  }

  lemma SizesSplit(ms: seq<Minor>, k: nat)
    requires k < |ms|
    ensures Sizes(ms) == Sizes(ms[..k]) + ms[k].size + Sizes(ms[k + 1..])
  {
    SizesAppend(ms[..k], ms[k..]);
    assert ms == ms[..k] + ms[k..];
    assert ms[k..][1..] == ms[k + 1..];
  }

  /** The minors before a gap fill at most the space before it. */
  lemma {:induction false} FrontFull(a: Major, k: nat)
    requires MajorOk(a) && k <= |a.minors|
    ensures a.addr + 48 + 48 * k + Sizes(a.minors[..k]) <= GapStart(a, k)
    decreases k
  {
    if k == 0 {
      assert a.minors[..0] == [];
    } else {
      FrontFull(a, k - 1);
      SizesAppend(a.minors[..k - 1], [a.minors[k - 1]]);
      assert a.minors[..k] == a.minors[..k - 1] + [a.minors[k - 1]];
      assert GapStart(a, k - 1) <= GapEnd(a, k - 1);
    }
  }

  lemma {:induction false} BackFull(a: Major, k: nat)
    requires MajorOk(a) && k <= |a.minors|
    ensures GapEnd(a, k) + 48 * (|a.minors| - k) + Sizes(a.minors[k..]) <= a.End()
    decreases |a.minors| - k
  {
    if k < |a.minors| {
      BackFull(a, k + 1);
      assert a.minors[k..][1..] == a.minors[k + 1..];
      assert GapStart(a, k + 1) <= GapEnd(a, k + 1);
    }
  }

  /** No gap is larger than size - usage: CASE 1 never skips a major that has room. */
  lemma GapWithinFree(a: Major, k: nat)
    requires MajorOk(a) && k <= |a.minors|
    ensures GapEnd(a, k) - GapStart(a, k) <= a.size - a.usage
  {
    FrontFull(a, k);
    BackFull(a, k);
    SizesAppend(a.minors[..k], a.minors[k..]);
    assert a.minors == a.minors[..k] + a.minors[k..];
  }

  lemma FullHasNoGap(a: Major, need: nat)
    requires MajorOk(a) && a.size - a.usage < need
    ensures !HasGap(a, need)
  {
    forall k | 0 <= k <= |a.minors| ensures !Fits(a, k, need) {
      GapWithinFree(a, k);
    }
  }

  lemma UsageWithinSize(a: Major)
    requires MajorOk(a)
    ensures a.usage <= a.size
  {
    GapWithinFree(a, 0);
  }

  /** Two minors of one major do not overlap. */
  lemma {:induction false} MinorsApart(a: Major, j: nat, k: nat)
    requires MajorOk(a) && j < k < |a.minors|
    ensures a.minors[j].End() <= a.minors[k].addr
    decreases k - j
  {
    assert GapStart(a, k) <= GapEnd(a, k);
    if j + 1 < k {
      MinorsApart(a, j, k - 1);
    }
  }

  lemma MinorInside(a: Major, k: nat)
    requires MajorOk(a) && k < |a.minors|
    ensures a.addr + 48 <= a.minors[k].addr && a.minors[k].End() <= a.End()
  {
    FrontFull(a, k);
    assert GapStart(a, k) <= GapEnd(a, k);
    BackFull(a, k + 1);
    assert GapStart(a, k + 1) <= GapEnd(a, k + 1);
  }

  // ---------------------------------------------------------------- one minor more, one less

  function Insert(ms: seq<Minor>, k: nat, m: Minor): seq<Minor>
    requires k <= |ms|
  {
    ms[..k] + [m] + ms[k..]
  }

  /** The minor that a request gets at the start of gap k. */
  function NewMinor(a: Major, k: nat, size: nat, req: nat): Minor
    requires k <= |a.minors|
  {
    Minor(GapStart(a, k), size, req)
  }

  function Grown(a: Major, k: nat, size: nat, req: nat): Major
    requires k <= |a.minors|
  {
    a.(usage := a.usage + 48 + size, minors := Insert(a.minors, k, NewMinor(a, k, size, req)))
  }

  /** A major without its minor k; usage is size_t arithmetic that never goes below zero. */
  function Shrunk(a: Major, k: nat): Major
    requires k < |a.minors|
  {
    a.(usage := if a.usage < 48 + a.minors[k].size then 0 else a.usage - 48 - a.minors[k].size,
       minors := RemoveAt(a.minors, k))
  }

  lemma GrownSizes(a: Major, k: nat, size: nat, req: nat)
    requires k <= |a.minors|
    ensures Sizes(Grown(a, k, size, req).minors) == Sizes(a.minors) + size
  {
    var m := NewMinor(a, k, size, req);
    SizesAppend(a.minors[..k] + [m], a.minors[k..]);
    SizesAppend(a.minors[..k], [m]);
    SizesAppend(a.minors[..k], a.minors[k..]);
    assert a.minors == a.minors[..k] + a.minors[k..];
    assert Sizes([m]) == size;
  }

  lemma GrownGaps(a: Major, k: nat, size: nat, req: nat, j: nat)
    requires k <= |a.minors| && Fits(a, k, 48 + size) && j <= |a.minors| + 1
    requires forall i :: 0 <= i <= |a.minors| ==> GapStart(a, i) <= GapEnd(a, i)
    ensures var b := Grown(a, k, size, req);
            |b.minors| == |a.minors| + 1 && GapStart(b, j) <= GapEnd(b, j)
  {
    var b := Grown(a, k, size, req);
    if j <= k {
      assert GapStart(b, j) == GapStart(a, j);
      assert GapStart(a, j) <= GapEnd(a, j);
    } else {
      assert GapEnd(b, j) == GapEnd(a, j - 1);
      assert GapStart(a, j - 1) <= GapEnd(a, j - 1);
    }
  }

  lemma GrownOk(a: Major, k: nat, size: nat, req: nat)
    requires MajorOk(a) && k <= |a.minors| && Fits(a, k, 48 + size) && req + 32 <= size
    ensures MajorOk(Grown(a, k, size, req))
    ensures Sizes(Grown(a, k, size, req).minors) == Sizes(a.minors) + size
  {
    var b := Grown(a, k, size, req);
    GrownSizes(a, k, size, req);
    hide Sizes, Fits;
    forall j | 0 <= j <= |b.minors| ensures GapStart(b, j) <= GapEnd(b, j) {
      GrownGaps(a, k, size, req, j);
    }
    hide GapStart, GapEnd;
  }

  lemma ShrunkOk(a: Major, k: nat)
    requires MajorOk(a) && k < |a.minors|
    ensures MajorOk(Shrunk(a, k)) && a.usage == Shrunk(a, k).usage + 48 + a.minors[k].size
    ensures Sizes(Shrunk(a, k).minors) + a.minors[k].size == Sizes(a.minors)
  {
    var b := Shrunk(a, k);
    SizesSplit(a.minors, k);
    SizesAppend(a.minors[..k], a.minors[k + 1..]);
    forall j | 0 <= j <= |b.minors| ensures GapStart(b, j) <= GapEnd(b, j) {
      if j < k {
        assert GapStart(a, j) <= GapEnd(a, j);
      } else {
        assert GapStart(a, j + 1) <= GapEnd(a, j + 1);
        if j == k {
          assert GapStart(a, k) <= GapEnd(a, k);
        }
      }
    }
  }

  /** Freeing what was just allocated gives the major back as it was. */
  lemma ShrunkGrown(a: Major, k: nat, size: nat, req: nat)
    requires k <= |a.minors|
    ensures Shrunk(Grown(a, k, size, req), k) == a
  {
    var b := Grown(a, k, size, req);
    assert b.minors[..k] == a.minors[..k] && b.minors[k + 1..] == a.minors[k..];
  }

  // ---------------------------------------------------------------- all majors

  predicate Apart(a: Major, b: Major) {
    a.End() <= b.addr || b.End() <= a.addr
  }

  predicate MajorsOk(ms: seq<Major>) {
    && (forall i :: 0 <= i < |ms| ==> MajorOk(ms[i]))
    && (forall i, j :: 0 <= i < j < |ms| ==> Apart(ms[i], ms[j]))
  }

  function InUse(ms: seq<Major>): nat {
    if ms == [] then 0 else Sizes(ms[0].minors) + InUse(ms[1..])
  }

  function Allocated(ms: seq<Major>): nat {
    if ms == [] then 0 else ms[0].size + Allocated(ms[1..])
  }

  predicate InHeap(ms: seq<Major>, i: nat, k: nat) {
    i < |ms| && k < |ms[i].minors|
  }

  lemma {:induction false} SumsUpdate(ms: seq<Major>, i: nat, a: Major)
    requires i < |ms|
    ensures InUse(ms[i := a]) + Sizes(ms[i].minors) == InUse(ms) + Sizes(a.minors)
    ensures Allocated(ms[i := a]) + ms[i].size == Allocated(ms) + a.size
  {
    if i == 0 {
      assert ms[0 := a][1..] == ms[1..];
    } else {
      SumsUpdate(ms[1..], i - 1, a);
      assert ms[i := a][1..] == ms[1..][i - 1 := a];
    }
  }

  lemma {:induction false} SumsAppend(s: seq<Major>, t: seq<Major>)
    ensures InUse(s + t) == InUse(s) + InUse(t)
    ensures Allocated(s + t) == Allocated(s) + Allocated(t)
  {
    if s == [] {
      assert s + t == t;
    } else {
      SumsAppend(s[1..], t);
      assert (s + t)[1..] == s[1..] + t;
    }
  }

  lemma SumsDrop(ms: seq<Major>, i: nat)
    requires i < |ms|
    ensures InUse(RemoveAt(ms, i)) + Sizes(ms[i].minors) == InUse(ms)
    ensures Allocated(RemoveAt(ms, i)) + ms[i].size == Allocated(ms)
  {
    SumsAppend(ms[..i], ms[i + 1..]);
    SumsAppend(ms[..i], ms[i..]);
    assert ms == ms[..i] + ms[i..];
    assert ms[i..][1..] == ms[i + 1..];
  }

  /** How many majors cover address x. */
  function Covering(ms: seq<Major>, x: nat): nat {
    if ms == [] then 0 else (if ms[0].addr <= x < ms[0].End() then 1 else 0) + Covering(ms[1..], x)
  }

  /** Bytes of the majors below address x. */
  function Below(ms: seq<Major>, x: nat): nat {
    if ms == [] then 0
    else
      (if x <= ms[0].addr then 0 else if x < ms[0].End() then x - ms[0].addr else ms[0].size)
      + Below(ms[1..], x)
  }

  lemma {:induction false} CoveredOnce(ms: seq<Major>, x: nat)
    requires MajorsOk(ms)
    ensures Covering(ms, x) <= 1
    ensures (forall i :: 0 <= i < |ms| ==> !(ms[i].addr <= x < ms[i].End())) ==> Covering(ms, x) == 0
  {
    if ms != [] {
      CoveredOnce(ms[1..], x);
      if ms[0].addr <= x < ms[0].End() {
        assert forall i :: 0 < i < |ms| ==> Apart(ms[0], ms[i]);
      }
    }
  }

  lemma {:induction false} BelowGrows(ms: seq<Major>, x: nat)
    ensures Below(ms, x + 1) == Below(ms, x) + Covering(ms, x)
    ensures Below(ms, 0) == 0
  {
    if ms != [] {
      BelowGrows(ms[1..], x);
    }
  }

  lemma {:induction false} BelowBound(ms: seq<Major>, x: nat)
    requires MajorsOk(ms)
    ensures x > 0 ==> Below(ms, x) < x
    decreases x
  {
    if x == 1 {
      BelowGrows(ms, 0);
      CoveredOnce(ms, 0);
    } else if x > 1 {
      BelowBound(ms, x - 1);
      BelowGrows(ms, x - 1);
      CoveredOnce(ms, x - 1);
    }
  }

  lemma {:induction false} AllBelow(ms: seq<Major>)
    requires forall i :: 0 <= i < |ms| ==> MajorOk(ms[i])
    ensures Below(ms, WORD) == Allocated(ms)
    ensures InUse(ms) <= Allocated(ms)
  {
    if ms != [] {
      AllBelow(ms[1..]);
      UsageWithinSize(ms[0]);
    }
  }

  /** The two running totals of the heap fit their 64-bit counters: disjoint blocks of one
      address space cannot sum up to more than it. */
  lemma TotalsFit(ms: seq<Major>)
    requires MajorsOk(ms)
    ensures InUse(ms) <= Allocated(ms) < WORD
  {
    AllBelow(ms);
    BelowBound(ms, WORD);
  }
}
