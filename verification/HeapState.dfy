/** What one step of the kernel heap does to all its blocks, and how live memory is laid out. */
module HeapStates {
  import opened Sequences
  import opened HeapShapes

  type byte = b: nat | b < 256

  // ---------------------------------------------------------------- places and minors

  /** Live minor k of major i. */
  predicate At(ms: seq<Major>, i: nat, k: nat, m: Minor) {
    InHeap(ms, i, k) && ms[i].minors[k] == m
  }

  /** Minor k of major i belongs to user pointer p. */
  predicate Owns(ms: seq<Major>, i: nat, k: nat, p: nat) {
    InHeap(ms, i, k) && ms[i].minors[k].User() == p
  }

  ghost predicate IsLive(ms: seq<Major>, p: nat) {
    exists i: nat, k: nat :: Owns(ms, i, k, p)
  }

  /** All live minors. */
  ghost function LiveSet(ms: seq<Major>): set<Minor> {
    set i, k | 0 <= i < |ms| && 0 <= k < |ms[i].minors| :: ms[i].minors[k]
  }

  /** The state after a request was placed at gap k of major i. */
  function With(ms: seq<Major>, i: nat, k: nat, size: nat, req: nat): seq<Major>
    requires i < |ms| && k <= |ms[i].minors|
  {
    ms[i := Grown(ms[i], k, size, req)]
  }

  /** The state after minor k of major i was freed; a major that gets empty goes too. */
  function Without(ms: seq<Major>, i: nat, k: nat): seq<Major>
    requires InHeap(ms, i, k)
  {
    if |ms[i].minors| == 1 then RemoveAt(ms, i) else ms[i := Shrunk(ms[i], k)]
  }

  /** A major as allocate_new_page leaves it. */
  function FreshMajor(addr: nat, pages: nat): Major {
    Major(addr, pages, 4096 * pages, 48, [])
  }

  /** The cookie byte, ALIGN_INFO before the user pointer, says how far that was moved. */
  predicate CookieOk(mem: nat -> byte, m: Minor) {
    mem(m.User() - 16) == m.User() - (m.addr + 48)
  }

  /** Position of the major at an address. */
  function IndexOf(ms: seq<Major>, addr: nat): (i: nat)
    ensures i <= |ms|
    ensures i < |ms| ==> ms[i].addr == addr
    ensures i == |ms| ==> forall j :: 0 <= j < |ms| ==> ms[j].addr != addr
  {
    if ms == [] || ms[0].addr == addr then 0 else 1 + IndexOf(ms[1..], addr)
  }

  /** Unused bytes of the major at an address. */
  function FreeAt(ms: seq<Major>, addr: nat): int {
    var i := IndexOf(ms, addr);
    if addr != 0 && i < |ms| then ms[i].size - ms[i].usage else 0
  }

  /** The state of the heap, where a major may be empty while a request is being served. */
  ghost predicate StateOk(ms: seq<Major>, bestBet: nat, inuse: nat, held: nat, mem: nat -> byte) {
    && MajorsOk(ms)
    && (bestBet == 0 || IndexOf(ms, bestBet) < |ms|)
    && inuse == InUse(ms)
    && held == Allocated(ms)
    && CookiesOk(ms, mem)
  }

  ghost predicate CookiesOk(ms: seq<Major>, mem: nat -> byte) {
    forall i: nat, k: nat :: InHeap(ms, i, k) ==> CookieOk(mem, ms[i].minors[k])
  }

  predicate NoneEmpty(ms: seq<Major>) {
    forall i :: 0 <= i < |ms| ==> ms[i].minors != []
  }

  // ---------------------------------------------------------------- how live memory is laid out

  lemma MajorsApart(ms: seq<Major>, i: nat, j: nat)
    requires MajorsOk(ms) && i < |ms| && j < |ms| && i != j
    ensures Apart(ms[i], ms[j])
  {
    if j < i {
      assert Apart(ms[j], ms[i]);
    }
  }

  /** Two different live minors lie apart. */
  lemma LiveApart(ms: seq<Major>, i: nat, k: nat, j: nat, l: nat)
    requires MajorsOk(ms) && InHeap(ms, i, k) && InHeap(ms, j, l) && (i, k) != (j, l)
    ensures ms[i].minors[k].End() <= ms[j].minors[l].addr || ms[j].minors[l].End() <= ms[i].minors[k].addr
  {
    if i == j {
      if k < l {
        MinorsApart(ms[i], k, l);
      } else {
        MinorsApart(ms[i], l, k);
      }
    } else {
      MinorInside(ms[i], k);
      MinorInside(ms[j], l);
      MajorsApart(ms, i, j);
    }
  }

  /** A live user range is 16-aligned, inside its own minor, with the cookie between header and
      range, and inside its major behind the major's header. */
  lemma UserRange(ms: seq<Major>, i: nat, k: nat)
    requires MajorsOk(ms) && InHeap(ms, i, k)
    ensures var m := ms[i].minors[k];
            && m.User() % 16 == 0
            && m.addr + 48 <= m.User() - 16 < m.User() && m.User() + m.req <= m.End()
            && ms[i].addr + 48 <= m.addr && m.End() <= ms[i].End() <= WORD
  {
    MinorInside(ms[i], k);
  }

  /** No byte of a live user range belongs to another live user range or to any header. */
  lemma UserRangesApart(ms: seq<Major>, i: nat, k: nat, j: nat, l: nat, x: nat)
    requires MajorsOk(ms) && InHeap(ms, i, k) && InHeap(ms, j, l)
    requires var m := ms[i].minors[k]; m.User() <= x < m.User() + m.req
    ensures var o := ms[j].minors[l];
            && !(o.addr <= x < o.addr + 48) && !(ms[j].addr <= x < ms[j].addr + 48) && x != o.User() - 16
            && ((i, k) != (j, l) ==> !(o.User() <= x < o.User() + o.req))
  {
    UserRange(ms, i, k);
    UserRange(ms, j, l);
    if (i, k) != (j, l) {
      LiveApart(ms, i, k, j, l);
    }
    if i != j {
      MajorsApart(ms, i, j);
    }
  }

  /** A user pointer names one live minor. */
  lemma UserIsUnique(ms: seq<Major>, i: nat, k: nat, j: nat, l: nat)
    requires MajorsOk(ms) && InHeap(ms, i, k) && InHeap(ms, j, l)
    requires ms[i].minors[k].User() == ms[j].minors[l].User() || ms[i].minors[k].addr == ms[j].minors[l].addr
    ensures i == j && k == l
  {
    UserRange(ms, i, k);
    UserRange(ms, j, l);
    if (i, k) != (j, l) {
      LiveApart(ms, i, k, j, l);
    }
  }

  // ---------------------------------------------------------------- one step of the blocks

  lemma ReplaceOk(ms: seq<Major>, i: nat, a: Major)
    requires MajorsOk(ms) && i < |ms| && MajorOk(a) && a.addr == ms[i].addr && a.End() == ms[i].End()
    ensures MajorsOk(ms[i := a])
  {
    hide MajorOk;
  }

  lemma DropOk(ms: seq<Major>, i: nat)
    requires MajorsOk(ms) && i < |ms|
    ensures MajorsOk(RemoveAt(ms, i))
  {
    hide MajorOk, Apart;
  }

  lemma WithOk(ms: seq<Major>, i: nat, k: nat, size: nat, req: nat)
    requires MajorsOk(ms) && i < |ms| && k <= |ms[i].minors|
    requires Fits(ms[i], k, 48 + size) && req + 32 <= size
    ensures MajorsOk(With(ms, i, k, size, req))
    ensures InUse(With(ms, i, k, size, req)) == InUse(ms) + size
    ensures Allocated(With(ms, i, k, size, req)) == Allocated(ms)
  {
    GrownOk(ms[i], k, size, req);
    SumsUpdate(ms, i, Grown(ms[i], k, size, req));
    ReplaceOk(ms, i, Grown(ms[i], k, size, req));
  }

  lemma ShrunkKeepsEnds(a: Major, k: nat)
    requires k < |a.minors|
    ensures var b := Shrunk(a, k); b.addr == a.addr && b.End() == a.End() && b.size == a.size
  {
  }

  /** The minors after a placement: the new one, and the old ones, shifted behind it. */
  lemma WithMinors(ms: seq<Major>, i: nat, k: nat, size: nat, req: nat, j: nat, l: nat)
    requires i < |ms| && k <= |ms[i].minors| && InHeap(With(ms, i, k, size, req), j, l)
    ensures var m := With(ms, i, k, size, req)[j].minors[l];
            if j == i && l == k then m == NewMinor(ms[i], k, size, req)
            else At(ms, j, if j == i && k < l then l - 1 else l, m)
  {
  }

  lemma WithKeepsLive(ms: seq<Major>, i: nat, k: nat, size: nat, req: nat, j: nat, l: nat)
    requires i < |ms| && k <= |ms[i].minors| && InHeap(ms, j, l)
    ensures At(With(ms, i, k, size, req), j, if j == i && k <= l then l + 1 else l, ms[j].minors[l])
  {
  }

  lemma WithoutOk(ms: seq<Major>, i: nat, k: nat)
    requires MajorsOk(ms) && InHeap(ms, i, k)
    ensures MajorsOk(Without(ms, i, k))
    ensures InUse(Without(ms, i, k)) + ms[i].minors[k].size == InUse(ms)
    ensures Allocated(Without(ms, i, k)) + (if |ms[i].minors| == 1 then ms[i].size else 0) == Allocated(ms)
  {
    ShrunkOk(ms[i], k);
    ShrunkKeepsEnds(ms[i], k);
    if |ms[i].minors| == 1 {
      SumsDrop(ms, i);
      DropOk(ms, i);
      assert Shrunk(ms[i], k).minors == [];
    } else {
      SumsUpdate(ms, i, Shrunk(ms[i], k));
      ReplaceOk(ms, i, Shrunk(ms[i], k));
    }
  }

  /** Every minor that is left after a free was live before, at another place than (i, k). */
  lemma WithoutMinors(ms: seq<Major>, i: nat, k: nat, j: nat, l: nat)
    requires InHeap(ms, i, k) && InHeap(Without(ms, i, k), j, l)
    ensures var m := Without(ms, i, k)[j].minors[l];
            exists j0: nat, l0: nat :: At(ms, j0, l0, m) && (j0, l0) != (i, k)
  {
    var m := Without(ms, i, k)[j].minors[l];
    if |ms[i].minors| == 1 {
      assert At(ms, if j < i then j else j + 1, l, m);
    } else {
      assert At(ms, j, if j == i && k <= l then l + 1 else l, m);
    }
  }

  /** kfree undoes kmalloc: in an old major the blocks are as they were, and a major obtained for
      the request is given back. */
  lemma FreeUndoesAlloc(ms: seq<Major>, i: nat, k: nat, size: nat, req: nat)
    requires i < |ms| && k <= |ms[i].minors|
    ensures InHeap(With(ms, i, k, size, req), i, k)
    ensures ms[i].minors != [] ==> Without(With(ms, i, k, size, req), i, k) == ms
    ensures ms[i].minors == [] ==> Without(With(ms, i, k, size, req), i, k) == RemoveAt(ms, i)
  {
    ShrunkGrown(ms[i], k, size, req);
    var after := With(ms, i, k, size, req);
    if ms[i].minors == [] {
      assert after[..i] == ms[..i] && after[i + 1..] == ms[i + 1..];
    } else {
      assert after[i := ms[i]] == ms;
    }
  }

  // ---------------------------------------------------------------- bytes and alignment

  function Poke(mem: nat -> byte, a: nat, b: byte): nat -> byte {
    x => if x == a then b else mem(x)
  }

  /** Address arithmetic modulo 2^64, downwards. */
  function Back(p: nat, d: nat): nat
    requires p < WORD && d <= WORD
  {
    if d <= p then p - d else p + WORD - d
  }

  /** The ALIGN macro: the pointer it yields and the cookie it leaves ALIGN_INFO before it. */
  function Align(mem: nat -> byte, p: nat): (nat -> byte, nat)
    requires p < WORD
  {
    var q := Wrap(p + 16);
    var d := q % 16;
    var diff := if d != 0 then 16 - d else 0;
    var r := Wrap(q + diff);
    (Poke(mem, Back(r, 16), diff + 16), r)
  }

  /** The UNALIGN macro; the cookie is a signed char. */
  function Unalign(mem: nat -> byte, p: nat): nat
    requires p < WORD
  {
    var c := mem(Back(p, 16));
    var diff := if c < 128 then c else c + WORD - 256;
    if diff < 32 then Back(p, diff) else p
  }

  lemma AlignSteps(p: nat)
    requires p < WORD
    ensures var q := Wrap(p + 16);
            var r := Wrap(q + Pad(p));
            && (if q % 16 != 0 then 16 - q % 16 else 0) == Pad(p) && r < WORD && r % 16 == 0
            && Back(r, 16) == Wrap(p + Pad(p)) && Back(r, Pad(p) + 16) == p
  {
  }

  /** UNALIGN undoes ALIGN at every address, also where the pointer wraps around the end of the
      address space; the cookie lies in the 16 bytes from the original pointer on. */
  lemma UnalignUndoesAlign(mem: nat -> byte, p: nat)
    requires p < WORD
    ensures var (mem1, q) := Align(mem, p);
            && q < WORD && q % 16 == 0 && Unalign(mem1, q) == p
            && forall x: nat :: mem1(x) != mem(x) ==> x == Wrap(p + Pad(p))
  {
    AlignSteps(p);
    hide Wrap, Back, Pad;
  }

  /** Only a byte below 32 is taken for a cookie; any other, read as a signed char or not, leaves the
      pointer where it is. */
  lemma UnalignIs(mem: nat -> byte, p: nat)
    requires p < WORD
    ensures var c := mem(Back(p, 16)); Unalign(mem, p) == if c < 32 then Back(p, c) else p
  {
  }

  lemma AlignIsAligned(mem: nat -> byte, p: nat)
    requires p + 32 <= WORD
    ensures Align(mem, p) == (Poke(mem, Aligned(p) - 16, Aligned(p) - p), Aligned(p))
  {
  }

  lemma UnalignFindsMinor(mem: nat -> byte, m: Minor)
    requires CookieOk(mem, m) && m.addr + 80 <= WORD
    ensures Unalign(mem, m.User()) == m.addr + 48
  {
  }

  // ---------------------------------------------------------------- the search

  predicate NoGaps(ms: seq<Major>, lo: nat, hi: nat, need: nat) {
    forall j :: lo <= j < hi && j < |ms| ==> !HasGap(ms[j], need)
  }

  /** The major the search starts at: the best bet when it has more than need bytes unused. */
  function StartOf(ms: seq<Major>, bestBet: nat, need: nat): nat {
    var b := IndexOf(ms, bestBet);
    if bestBet != 0 && b < |ms| && ms[b].size - ms[b].usage > need then b else 0
  }

  /** Major i is the first with a large enough gap, from major s on and around. */
  ghost predicate FirstMajor(ms: seq<Major>, s: nat, i: nat, need: nat) {
    if s <= i then NoGaps(ms, s, i, need) else NoGaps(ms, s, |ms|, need) && NoGaps(ms, 0, i, need)
  }

  /** Gap k is the lowest one of its major that is large enough. */
  ghost predicate FirstGap(a: Major, k: nat, need: nat) {
    && k <= |a.minors| && Fits(a, k, need)
    && forall j :: 0 <= j < k ==> !Fits(a, j, need)
  }

  /** How far the search has got: major idx is next; started tells that it began at the best bet
      s and has not come around yet. */
  ghost predicate Searched(ms: seq<Major>, s: nat, started: bool, idx: nat, need: nat) {
    if started then s <= idx && NoGaps(ms, s, idx, need)
    else NoGaps(ms, 0, idx, need) && (s == 0 || NoGaps(ms, s, |ms|, need))
  }

  lemma SearchedNext(ms: seq<Major>, s: nat, started: bool, idx: nat, need: nat)
    requires Searched(ms, s, started, idx, need) && idx < |ms| && !HasGap(ms[idx], need)
    ensures Searched(ms, s, started, idx + 1, need)
    ensures started && idx + 1 == |ms| ==> Searched(ms, s, false, 0, need)
    ensures !started && idx + 1 == |ms| ==> NoGaps(ms, 0, |ms|, need)
  {
  }

  /** What liballoc_alloc may hand out: pages that no major uses, inside the address space. */
  predicate CanGrant(ms: seq<Major>, grant: nat, pages: nat) {
    && 0 < grant && grant + 4096 * pages <= WORD
    && forall i :: 0 <= i < |ms| ==> Apart(ms[i], FreshMajor(grant, pages))
  }

  /** The new major that kmalloc obtains for a request, and fills without another look, is right
      afterwards exactly when what is asked for is servable. */
  lemma FreshHoldsIff(request: nat, grant: nat)
    requires request < WORD && 0 < grant && grant + 4096 * PagesFor(Padded(Asked(request))) <= WORD
    ensures var req := Asked(request);
            var a := FreshMajor(grant, PagesFor(Padded(req)));
            MajorOk(Grown(a, 0, Padded(req), req)) <==> Servable(req)
  {
    var req := Asked(request);
    var a := FreshMajor(grant, PagesFor(Padded(req)));
    var b := Grown(a, 0, Padded(req), req);
    ServableIff(req);
    assert b.minors == [Minor(grant + 48, Padded(req), req)];
    if Servable(req) {
      GrownOk(a, 0, Padded(req), req);
    } else {
      assert GapStart(b, 1) == grant + 96 + Padded(req) && GapEnd(b, 1) == a.End();
    }
  }

  /** A gap of an existing major that passes the size test of the search, whose sum wraps around
      as well, takes the request and leaves the major right exactly when neither the padded size
      nor that sum wraps. */
  lemma GapHoldsIff(a: Major, k: nat, request: nat)
    requires request < WORD && MajorOk(a) && k <= |a.minors|
    requires Fits(a, k, Wrap(48 + Padded(Asked(request))))
    ensures var req := Asked(request);
            MajorOk(Grown(a, k, Padded(req), req)) <==> req + 32 + 48 < WORD
  {
    var req := Asked(request);
    var b := Grown(a, k, Padded(req), req);
    assert b.minors[k] == NewMinor(a, k, Padded(req), req);
    if req + 80 < WORD {
      GrownOk(a, k, Padded(req), req);
    } else if req + 32 < WORD {
      GapInside(a, k);
      assert b.minors[k].End() == GapStart(a, k) + 48 + Padded(req);
      assert GapStart(b, k + 1) > GapEnd(b, k + 1);
    } else {
      assert b.minors[k].size < b.minors[k].req + 32;
    }
  }

  lemma GapInside(a: Major, k: nat)
    requires MajorOk(a) && k <= |a.minors|
    ensures 0 < GapStart(a, k) <= GapEnd(a, k) <= WORD
  {
    if k < |a.minors| {
      MinorInside(a, k);
    }
    if 0 < k {
      MinorInside(a, k - 1);
    }
  }

  /** A request that is not: 300000 bytes below 2^64. The block obtained is 1 MiB. */
  lemma HugeRequestOverruns(grant: nat)
    requires 0 < grant && grant + 0x10_0000 <= WORD
    ensures var req := WORD - 300000;
            && PagesFor(Padded(req)) == 256
            && !MajorOk(Grown(FreshMajor(grant, 256), 0, Padded(req), req))
  {
    FreshHoldsIff(WORD - 300000, grant);
  }

  lemma FreshOk(ms: seq<Major>, grant: nat, size: nat)
    requires MajorsOk(ms) && size + 393216 < WORD && CanGrant(ms, grant, PagesFor(size))
    ensures var a := FreshMajor(grant, PagesFor(size));
            && MajorOk(a) && a.size - a.usage > 48 + size && FirstGap(a, 0, 48 + size)
            && MajorsOk(ms + [a]) && InUse(ms + [a]) == InUse(ms) && Allocated(ms + [a]) == Allocated(ms) + a.size
  {
    var a := FreshMajor(grant, PagesFor(size));
    SumsAppend(ms, [a]);
    assert InUse([a]) == Sizes(a.minors) + InUse([]);
    assert Allocated([a]) == a.size + Allocated([]);
  }

  lemma {:induction false} IndexOfAppend(ms: seq<Major>, a: Major, addr: nat)
    ensures IndexOf(ms, addr) < |ms| ==> IndexOf(ms + [a], addr) == IndexOf(ms, addr)
  {
    if ms != [] && ms[0].addr != addr {
      IndexOfAppend(ms[1..], a, addr);
      assert (ms + [a])[1..] == ms[1..] + [a];
    }
  }

  lemma {:induction false} IndexOfWith(ms: seq<Major>, i: nat, a: Major, addr: nat)
    requires i < |ms| && a.addr == ms[i].addr
    ensures IndexOf(ms[i := a], addr) == IndexOf(ms, addr)
  {
    if i == 0 {
      assert ms[0 := a][1..] == ms[1..];
    } else {
      IndexOfWith(ms[1..], i - 1, a, addr);
      assert ms[i := a][1..] == ms[1..][i - 1 := a];
    }
  }

  lemma IndexOfMajor(ms: seq<Major>, i: nat)
    requires MajorsOk(ms) && i < |ms|
    ensures IndexOf(ms, ms[i].addr) == i
  {
    var j := IndexOf(ms, ms[i].addr);
    if j != i {
      MajorsApart(ms, i, j);
      UsageWithinSize(ms[i]);
      UsageWithinSize(ms[j]);
    }
  }

  lemma {:induction false} PlacedMinor(ms: seq<Major>, i: nat, k: nat, size: nat, req: nat)
    requires MajorsOk(ms) && i < |ms| && k <= |ms[i].minors|
    requires Fits(ms[i], k, 48 + size) && req + 32 <= size
    ensures var m := NewMinor(ms[i], k, size, req);
            && MajorsOk(With(ms, i, k, size, req)) && At(With(ms, i, k, size, req), i, k, m)
            && m.addr + 80 <= WORD && m.addr + 64 <= m.User() < m.addr + 304
  {
    WithOk(ms, i, k, size, req);
    hide MajorsOk, Fits;
    UserRange(With(ms, i, k, size, req), i, k);
  }

  lemma {:induction false} CookieAfterPlace(ms: seq<Major>, i: nat, k: nat, size: nat, req: nat,
                                            mem: nat -> byte, j: nat, l: nat)
    requires MajorsOk(ms) && i < |ms| && k <= |ms[i].minors| && CookiesOk(ms, mem)
    requires Fits(ms[i], k, 48 + size) && req + 32 <= size && InHeap(With(ms, i, k, size, req), j, l)
    ensures var m := NewMinor(ms[i], k, size, req);
            && m.addr + 64 <= m.User() < m.addr + 304
            && CookieOk(Poke(mem, m.User() - 16, m.User() - m.addr - 48), With(ms, i, k, size, req)[j].minors[l])
  {
    hide MajorsOk, With, Fits, CookieOk, Poke;
    var m := NewMinor(ms[i], k, size, req);
    var after := With(ms, i, k, size, req);
    PlacedMinor(ms, i, k, size, req);
    WithMinors(ms, i, k, size, req, j, l);
    if (j, l) == (i, k) {
      OwnCookie(mem, m);
    } else {
      LiveApart(after, i, k, j, l);
      UserRange(after, j, l);
      OtherCookie(mem, m, after[j].minors[l], m.User() - m.addr - 48);
    }
  }

  /** Placing a minor and writing its cookie leaves all cookies right. */
  lemma {:induction false} CookiesAfterPlace(ms: seq<Major>, i: nat, k: nat, size: nat, req: nat, mem: nat -> byte)
    requires MajorsOk(ms) && i < |ms| && k <= |ms[i].minors| && CookiesOk(ms, mem)
    requires Fits(ms[i], k, 48 + size) && req + 32 <= size
    ensures var m := NewMinor(ms[i], k, size, req);
            && m.addr + 80 <= WORD && m.addr + 64 <= m.User() < m.addr + 304
            && CookiesOk(With(ms, i, k, size, req), Poke(mem, m.User() - 16, m.User() - m.addr - 48))
  {
    hide MajorsOk, With, Fits, CookieOk, Poke;
    PlacedMinor(ms, i, k, size, req);
    forall j: nat, l: nat | InHeap(With(ms, i, k, size, req), j, l) {
      CookieAfterPlace(ms, i, k, size, req, mem, j, l);
    }
  }

  lemma OwnCookie(mem: nat -> byte, m: Minor)
    requires 16 <= m.User() && 0 <= m.User() - m.addr - 48 < 256
    ensures CookieOk(Poke(mem, m.User() - 16, m.User() - m.addr - 48), m)
  {
  }

  lemma OtherCookie(mem: nat -> byte, m: Minor, o: Minor, b: byte)
    requires CookieOk(mem, o) && 16 <= m.User() && 16 <= o.User() && m.User() != o.User()
    ensures CookieOk(Poke(mem, m.User() - 16, b), o)
  {
  }

  predicate NoneEmptyBut(ms: seq<Major>, i: nat) {
    forall j :: 0 <= j < |ms| && j != i ==> ms[j].minors != []
  }

  lemma PlaceOk(ms: seq<Major>, bestBet: nat, inuse: nat, held: nat, mem: nat -> byte,
                i: nat, k: nat, size: nat, req: nat)
    requires StateOk(ms, bestBet, inuse, held, mem) && i < |ms| && k <= |ms[i].minors|
    requires Fits(ms[i], k, 48 + size) && req + 32 <= size && NoneEmptyBut(ms, i)
    ensures var m := NewMinor(ms[i], k, size, req);
            && m.addr + 80 <= WORD && m.addr == GapStart(ms[i], k) && m.User() == Aligned(m.addr + 48)
            && StateOk(With(ms, i, k, size, req), bestBet, inuse + size, held,
                       Poke(mem, m.User() - 16, m.User() - m.addr - 48))
    ensures NoneEmpty(With(ms, i, k, size, req))
  {
    WithOk(ms, i, k, size, req);
    CookiesAfterPlace(ms, i, k, size, req, mem);
    IndexOfWith(ms, i, Grown(ms[i], k, size, req), bestBet);
  }

  lemma AskedIs(req: nat)
    requires req < WORD
    ensures Asked(req) == (if Padded(req) == 0 then 1 else req) && Padded(Asked(req)) != 0
    ensures Asked(Asked(req)) == Asked(req)
  {
  }

  lemma ServableMeans(req: nat)
    requires Servable(req)
    ensures req < WORD && Padded(req) == req + 32 && Padded(req) + 393216 < WORD && Asked(req) == req
  {
  }

  lemma NoGapsInNone(need: nat)
    ensures NoGaps([], 0, 0, need)
  {
  }

  lemma NotEmpty(ms: seq<Major>, i: nat)
    requires NoneEmpty(ms) && i < |ms|
    ensures ms[i].minors != []
  {
  }

  lemma StartIs(ms: seq<Major>, bestBet: nat, need: nat)
    ensures StartOf(ms, bestBet, need) == (if bestBet != 0 && IndexOf(ms, bestBet) < |ms|
      && FreeAt(ms, bestBet) > need then IndexOf(ms, bestBet) else 0)
    ensures StartOf(ms, bestBet, need) <= |ms| && (bestBet == 0 ==> FreeAt(ms, bestBet) == 0)
  {
  }

  lemma SearchStarts(ms: seq<Major>, s: nat, need: nat)
    ensures Searched(ms, s, true, s, need) && Searched(ms, 0, false, 0, need)
  {
  }

  lemma BestFacts(ms: seq<Major>, bestBet: nat, inuse: nat, held: nat, mem: nat -> byte)
    requires StateOk(ms, bestBet, inuse, held, mem)
    ensures var b := IndexOf(ms, bestBet);
            bestBet != 0 ==>
              b < |ms| && ms[b].usage <= ms[b].size && FreeAt(ms, bestBet) == ms[b].size - ms[b].usage
  {
    if bestBet != 0 {
      UsageWithinSize(ms[IndexOf(ms, bestBet)]);
    }
  }

  lemma MajorFacts(ms: seq<Major>, bestBet: nat, inuse: nat, held: nat, mem: nat -> byte, i: nat)
    requires StateOk(ms, bestBet, inuse, held, mem) && i < |ms|
    ensures MajorOk(ms[i]) && ms[i].usage <= ms[i].size
    ensures StateOk(ms, ms[i].addr, inuse, held, mem)
    ensures FreeAt(ms, ms[i].addr) == ms[i].size - ms[i].usage
  {
    UsageWithinSize(ms[i]);
    IndexOfMajor(ms, i);
  }

  function Unused(a: Major): int {
    a.size - a.usage
  }

  lemma UnusedIs(a: Major)
    ensures Unused(a) == a.size - a.usage
  {
  }

  /** None of the majors from lo to hi has more than best unused bytes. */
  ghost predicate Topped(ms: seq<Major>, best: int, lo: nat, hi: nat) {
    forall j :: lo <= j < hi && j < |ms| ==> Unused(ms[j]) <= best
  }

  /** None of those that the search has compared so far does. */
  ghost predicate Topping(ms: seq<Major>, best: int, s: nat, started: bool, idx: nat) {
    if started then s <= idx && Topped(ms, best, s, idx)
    else Topped(ms, best, 0, idx) && (s == 0 || Topped(ms, best, s, |ms|))
  }

  /** None of those from major s to major i, around the end. */
  ghost predicate ToppedUpTo(ms: seq<Major>, best: int, s: nat, i: nat) {
    if s <= i then Topped(ms, best, s, i + 1) else Topped(ms, best, s, |ms|) && Topped(ms, best, 0, i + 1)
  }

  lemma ToppingStarts(ms: seq<Major>, best: int, s: nat)
    ensures Topping(ms, best, s, true, s) && Topping(ms, best, 0, false, 0) && Topped([], best, 0, 0)
  {
  }

  lemma ToppingNext(ms: seq<Major>, best: int, best': int, s: nat, started: bool, idx: nat)
    requires Topping(ms, best, s, started, idx) && best <= best' && idx < |ms| && Unused(ms[idx]) <= best'
    ensures Topping(ms, best', s, started, idx + 1) && ToppedUpTo(ms, best', s, idx)
    ensures started && idx + 1 == |ms| ==> Topping(ms, best', s, false, 0)
    ensures !started && idx + 1 == |ms| ==> Topped(ms, best', 0, |ms|)
  {
  }

  /** What the best bet is after a search that began at major s with ms0 and best0. It has at least
      as many unused bytes as every major that the search went over, the one it found included;
      so has it as the new one, but where the last major before was too full to be looked into,
      for then the new one is taken without a comparison. */
  ghost predicate Noted(ms0: seq<Major>, best0: nat, ms: seq<Major>, best: nat, s: nat, ok: bool, i: nat, asked: bool,
                        need: nat)
  {
    && (best == best0 || IndexOf(ms, best) < |ms|)
    && (!asked && ok ==> ToppedUpTo(ms, FreeAt(ms, best), s, i))
    && (asked ==> Topped(ms, FreeAt(ms, best), 0, |ms0|))
    && (asked && ok ==>
          if ms0 == [] || Unused(ms0[|ms0| - 1]) >= need then Topped(ms, FreeAt(ms, best), 0, |ms|)
          else best == best0 || IndexOf(ms0, best) < |ms0|)
  }

  lemma NotedFound(ms: seq<Major>, best0: nat, best: nat, s: nat, i: nat, need: nat)
    requires best == best0 || IndexOf(ms, best) < |ms|
    ensures ToppedUpTo(ms, FreeAt(ms, best), s, i) ==> Noted(ms, best0, ms, best, s, true, i, false, need)
    ensures Topped(ms, FreeAt(ms, best), 0, |ms|) ==> Noted(ms, best0, ms, best, s, false, i, true, need)
  {
  }

  /** The new major is taken without a comparison. */
  lemma NotedUncompared(ms0: seq<Major>, best0: nat, ms: seq<Major>, best: nat, s: nat, i: nat, need: nat)
    requires best == best0 || IndexOf(ms0, best) < |ms0|
    requires |ms| == |ms0| + 1 && ms == ms0 + [ms[|ms0|]] && FreeAt(ms, best) == FreeAt(ms0, best)
    requires Topped(ms0, FreeAt(ms0, best), 0, |ms0|) && ms0 != [] && Unused(ms0[|ms0| - 1]) < need
    ensures Noted(ms0, best0, ms, best, s, true, i, true, need)
  {
    IndexOfAppend(ms0, ms[|ms0|], best);
  }

  /** It is compared like the others. */
  lemma NotedCompared(ms0: seq<Major>, best0: nat, ms: seq<Major>, before: int, best: nat, s: nat, i: nat, need: nat)
    requires best == best0 || IndexOf(ms, best) < |ms|
    requires |ms| == |ms0| + 1 && ms == ms0 + [ms[|ms0|]]
    requires Topped(ms0, before, 0, |ms0|) && before <= FreeAt(ms, best) && Unused(ms[|ms0|]) <= FreeAt(ms, best)
    requires ms0 == [] || Unused(ms0[|ms0| - 1]) >= need
    ensures Noted(ms0, best0, ms, best, s, true, i, true, need)
  {
    hide FreeAt, IndexOf;
  }

  /** The first major of an empty heap is the best bet. */
  lemma FirstIsNoted(a: Major, best0: nat, best: nat, i: nat, need: nat)
    requires Noted([], best0, [a], best, StartOf([], best0, need), true, i, true, need) && Unused(a) > 0
    ensures best == a.addr
  {
    assert Unused([a][0]) <= FreeAt([a], best);
  }

  /** A new major, behind majors without a gap: the search ends in it. */
  ghost predicate Extended(ms0: seq<Major>, ms: seq<Major>, s: nat, size: nat, grant: nat) {
    && grant != 0 && s <= |ms0| && NoGaps(ms0, 0, |ms0|, 48 + size) && NoneEmpty(ms0)
    && size + 393216 < WORD && CanGrant(ms0, grant, PagesFor(size))
    && ms == ms0 + [FreshMajor(grant, PagesFor(size))]
  }

  lemma ExtendedFacts(ms0: seq<Major>, ms: seq<Major>, s: nat, size: nat, grant: nat)
    requires Extended(ms0, ms, s, size, grant)
    ensures |ms| == |ms0| + 1 && grant != 0 && NoGaps(ms0, 0, |ms0|, 48 + size)
    ensures ms == ms0 + [FreshMajor(grant, PagesFor(size))]
    ensures var a := ms[|ms0|];
            && a.minors == [] && a.size - a.usage > 48 + size
            && FirstGap(a, 0, 48 + size) && FirstMajor(ms, s, |ms0|, 48 + size) && NoneEmptyBut(ms, |ms0|)
  {
  }

  lemma ExtendedBest(ms0: seq<Major>, ms: seq<Major>, s: nat, size: nat, grant: nat, bestBet: nat)
    requires Extended(ms0, ms, s, size, grant) && (bestBet == 0 || IndexOf(ms0, bestBet) < |ms0|)
    ensures FreeAt(ms, bestBet) == FreeAt(ms0, bestBet)
  {
    IndexOfAppend(ms0, FreshMajor(grant, PagesFor(size)), bestBet);
  }

  /** The search under way: major maj is next. With asked, a new major stands behind all others, and
      it is to be compared as well. */
  ghost predicate Underway(ms0: seq<Major>, best0: nat, ms: seq<Major>, best: nat, bestSize: int, s: nat, started: bool,
                           maj: nat, asked: bool, size: nat, grant: nat)
  {
    var need := 48 + size;
    && maj < |ms| && bestSize == FreeAt(ms, best) >= FreeAt(ms0, best0)
    && (best != best0 ==> bestSize > FreeAt(ms0, best0))
    && (best == best0 || IndexOf(ms, best) < |ms|)
    && if asked then
         && !started && maj == |ms0| && Extended(ms0, ms, s, size, grant)
         && Topped(ms0, bestSize, 0, |ms0|) && (ms0 == [] || Unused(ms0[|ms0| - 1]) >= need)
       else
         && ms == ms0 && NoneEmpty(ms0)
         && Searched(ms0, s, started, maj, need) && Topping(ms0, bestSize, s, started, maj)
  }

  /** What the search comes to. It asks for a new major exactly when no major has a gap; otherwise it
      finds the lowest gap of the first major that has one, from the best bet on and around. */
  ghost predicate SearchResult(ms0: seq<Major>, best0: nat, ms: seq<Major>, best: nat, ok: bool, maj: nat, gap: nat,
                               asked: bool, size: nat, grant: nat)
    requires size < WORD
  {
    var need := 48 + size;
    var s := StartOf(ms0, best0, need);
    && (asked <==> NoGaps(ms0, 0, |ms0|, need))
    && (ok <==> !(asked && grant == 0))
    && ms == ms0 + (if asked && ok then [FreshMajor(grant, PagesFor(size))] else [])
    && (!ok ==> NoneEmpty(ms))
    && (ok ==> maj < |ms| && FirstGap(ms[maj], gap, need) && NoneEmptyBut(ms, maj) && FirstMajor(ms, s, maj, need))
    && (best != best0 ==> FreeAt(ms, best) > FreeAt(ms0, best0))
    && Noted(ms0, best0, ms, best, s, ok, maj, asked, need)
  }

  lemma UnderwayStarts(ms0: seq<Major>, best0: nat, bestSize: int, started: bool, size: nat, grant: nat)
    requires ms0 != [] && NoneEmpty(ms0) && bestSize == FreeAt(ms0, best0)
    requires var b := StartOf(ms0, best0, 48 + size); b < |ms0|
    requires started || StartOf(ms0, best0, 48 + size) == 0
    ensures var b := StartOf(ms0, best0, 48 + size);
            Underway(ms0, best0, ms0, best0, bestSize, b, started, if started then b else 0, false, size, grant)
  {
  }

  lemma UnderwayFacts(ms0: seq<Major>, best0: nat, ms: seq<Major>, best: nat, bestSize: int, s: nat, started: bool,
                      maj: nat, asked: bool, size: nat, grant: nat)
    requires Underway(ms0, best0, ms, best, bestSize, s, started, maj, asked, size, grant)
    ensures maj < |ms| && bestSize == FreeAt(ms, best) && bestSize >= FreeAt(ms0, best0)
    ensures (best == best0 || IndexOf(ms, best) < |ms|) && (best != best0 ==> bestSize > FreeAt(ms0, best0))
    ensures if asked then !started && maj == |ms0| && |ms| == |ms0| + 1 else ms == ms0 && NoneEmpty(ms0)
    ensures asked && ms0 != [] ==> Unused(ms0[|ms0| - 1]) >= 48 + size
    ensures asked ==> Unused(ms[maj]) > 48 + size
  {
    hide FreeAt, NoGaps, CanGrant, Searched, Topped, Topping;
  }

  lemma EmptyHeap(best: nat, size: nat)
    ensures NoGaps([], 0, 0, 48 + size) && Topped([], 0, 0, 0) && NoneEmpty([]) && FreeAt([], best) == 0
  {
  }

  /** The next major has been compared with the best bet. */
  lemma UnderwayCompared(ms0: seq<Major>, best0: nat, ms: seq<Major>, best: nat, bestSize: int, s: nat, started: bool,
                         maj: nat, asked: bool, size: nat, grant: nat, best1: nat, bestSize1: int)
    requires Underway(ms0, best0, ms, best, bestSize, s, started, maj, asked, size, grant)
    requires bestSize1 == FreeAt(ms, best1) >= bestSize && bestSize1 >= Unused(ms[maj])
    requires best1 != best ==> bestSize1 > bestSize && best1 == ms[maj].addr
    ensures Underway(ms0, best0, ms, best1, bestSize1, s, started, maj, asked, size, grant)
    ensures asked <==> ms[maj].minors == []
  {
    hide FreeAt, NoGaps, CanGrant, FreshMajor, PagesFor, Searched;
    if asked {
      ExtendedFacts(ms0, ms, s, size, grant);
    } else {
      NotEmpty(ms, maj);
    }
  }

  /** A gap in an old major. */
  lemma UnderwayFound(ms0: seq<Major>, best0: nat, ms: seq<Major>, best: nat, bestSize: int, started: bool,
                      maj: nat, gap: nat, size: nat, grant: nat)
    requires size < WORD
    requires Underway(ms0, best0, ms, best, bestSize, StartOf(ms0, best0, 48 + size), started, maj, false, size, grant)
    requires bestSize >= Unused(ms[maj]) && FirstGap(ms[maj], gap, 48 + size)
    ensures SearchResult(ms0, best0, ms, best, true, maj, gap, false, size, grant)
  {
    hide StartOf, FreeAt, NoGaps, FirstGap, FirstMajor, NoneEmpty, NoneEmptyBut;
    var s := StartOf(ms0, best0, 48 + size);
    FoundFacts(ms0, s, started, maj, gap, 48 + size);
    hide Searched;
    ToppingNext(ms0, bestSize, bestSize, s, started, maj);
    NotedFound(ms0, best0, best, s, maj, 48 + size);
    assert ms0 + [] == ms0;
  }

  /** The new major, after it was compared. */
  lemma UnderwayNew(ms0: seq<Major>, best0: nat, ms: seq<Major>, best: nat, bestSize: int,
                    maj: nat, size: nat, grant: nat)
    requires size < WORD
    requires Underway(ms0, best0, ms, best, bestSize, StartOf(ms0, best0, 48 + size), false, maj, true, size, grant)
    requires bestSize >= Unused(ms[maj])
    ensures SearchResult(ms0, best0, ms, best, true, maj, 0, true, size, grant)
  {
    hide StartOf, FreeAt, NoGaps, FirstGap, FirstMajor, NoneEmptyBut, PagesFor, FreshMajor, Topped;
    var s := StartOf(ms0, best0, 48 + size);
    ExtendedFacts(ms0, ms, s, size, grant);
    NotedCompared(ms0, best0, ms, bestSize, best, s, maj, 48 + size);
  }

  /** No gap in this one. */
  lemma UnderwayNext(ms0: seq<Major>, best0: nat, ms: seq<Major>, best: nat, bestSize: int, s: nat, started: bool,
                     maj: nat, size: nat, grant: nat)
    requires Underway(ms0, best0, ms, best, bestSize, s, started, maj, false, size, grant)
    requires bestSize >= Unused(ms[maj]) && !HasGap(ms[maj], 48 + size)
    ensures maj + 1 < |ms| ==> Underway(ms0, best0, ms, best, bestSize, s, started, maj + 1, false, size, grant)
    ensures maj + 1 == |ms| && started ==> Underway(ms0, best0, ms, best, bestSize, s, false, 0, false, size, grant)
    ensures maj + 1 == |ms| && !started ==>
              ms == ms0 && NoGaps(ms0, 0, |ms0|, 48 + size) && Topped(ms0, bestSize, 0, |ms0|) && NoneEmpty(ms0)
  {
    hide FreeAt, NoGaps, NoneEmpty, HasGap, Topped, IndexOf;
    SearchedNext(ms0, s, started, maj, 48 + size);
    ToppingNext(ms0, bestSize, bestSize, s, started, maj);
    hide Searched, Topping;
  }

  /** All majors are full, and there is no new one. */
  lemma UnderwayRefused(ms0: seq<Major>, best0: nat, best: nat, bestSize: int, maj: nat, gap: nat, size: nat)
    requires size < WORD && NoGaps(ms0, 0, |ms0|, 48 + size) && Topped(ms0, bestSize, 0, |ms0|) && NoneEmpty(ms0)
    requires bestSize == FreeAt(ms0, best) && (best == best0 || IndexOf(ms0, best) < |ms0|)
    requires best != best0 ==> bestSize > FreeAt(ms0, best0)
    ensures SearchResult(ms0, best0, ms0, best, false, maj, gap, true, size, 0)
  {
    hide StartOf, FreeAt, NoGaps, NoneEmpty, IndexOf;
    NotedFound(ms0, best0, best, StartOf(ms0, best0, 48 + size), maj, 48 + size);
    assert ms0 + [] == ms0;
  }

  /** All majors are full, and a new one follows: taken at once, or compared first. */
  lemma UnderwayExtended(ms0: seq<Major>, best0: nat, ms: seq<Major>, best: nat, bestSize: int, size: nat, grant: nat)
    requires size < WORD && Topped(ms0, bestSize, 0, |ms0|)
    requires Extended(ms0, ms, StartOf(ms0, best0, 48 + size), size, grant)
    requires bestSize == FreeAt(ms0, best) == FreeAt(ms, best) && (best == best0 || IndexOf(ms0, best) < |ms0|)
    requires best != best0 ==> bestSize > FreeAt(ms0, best0)
    requires bestSize >= FreeAt(ms0, best0)
    ensures |ms| == |ms0| + 1
    ensures ms0 != [] && Unused(ms0[|ms0| - 1]) < 48 + size ==>
              SearchResult(ms0, best0, ms, best, true, |ms0|, 0, true, size, grant)
    ensures ms0 == [] || Unused(ms0[|ms0| - 1]) >= 48 + size ==>
              Underway(ms0, best0, ms, best, bestSize, StartOf(ms0, best0, 48 + size), false, |ms0|, true, size, grant)
  {
    hide StartOf, FreeAt, NoGaps, FirstGap, FirstMajor, NoneEmptyBut, PagesFor, Topped, NoneEmpty, CanGrant;
    var s := StartOf(ms0, best0, 48 + size);
    ExtendedFacts(ms0, ms, s, size, grant);
    IndexOfAppend(ms0, ms[|ms0|], best);
    if ms0 != [] && Unused(ms0[|ms0| - 1]) < 48 + size {
      NotedUncompared(ms0, best0, ms, best, s, |ms0|, 48 + size);
    }
  }

  lemma SearchResultIs(ms0: seq<Major>, best0: nat, ms: seq<Major>, best: nat, ok: bool, maj: nat, gap: nat,
                       asked: bool, size: nat, grant: nat)
    requires size < WORD && SearchResult(ms0, best0, ms, best, ok, maj, gap, asked, size, grant)
    ensures var need := 48 + size;
            var s := StartOf(ms0, best0, need);
            && (asked <==> NoGaps(ms0, 0, |ms0|, need))
            && (ok <==> !(asked && grant == 0))
            && ms == ms0 + (if asked && ok then [FreshMajor(grant, PagesFor(size))] else [])
            && (!ok ==> NoneEmpty(ms))
            && (ok ==>
                  maj < |ms| && FirstGap(ms[maj], gap, need) && NoneEmptyBut(ms, maj) && FirstMajor(ms, s, maj, need))
            && (best != best0 ==> FreeAt(ms, best) > FreeAt(ms0, best0))
            && Noted(ms0, best0, ms, best, s, ok, maj, asked, need)
    ensures ms0 == [] && ok ==> best == grant
  {
    hide NoGaps, FirstGap, FirstMajor, NoneEmpty, NoneEmptyBut, StartOf, Noted, PagesFor, FreeAt;
    if ms0 == [] && ok {
      assert asked by {
        EmptyHeap(best0, size);
      }
      FreshUnused(grant, size);
      assert ms == [ms[0]];
      FirstIsNoted(ms[0], best0, best, maj, 48 + size);
    }
  }

  lemma FreshUnused(grant: nat, size: nat)
    requires size < WORD
    ensures Unused(FreshMajor(grant, PagesFor(size))) > 0 && FreshMajor(grant, PagesFor(size)).addr == grant
  {
  }

  /** The best bet after a minor of major i was freed: dropped if the major went with it; otherwise, if
      there was one, with at least as many unused bytes as the major has now. */
  predicate BetAfterFree(ms0: seq<Major>, best0: nat, ms: seq<Major>, best: nat, i: nat)
    requires i < |ms0|
  {
    if |ms0[i].minors| == 1 then best == if best0 == ms0[i].addr then 0 else best0
    else
      && i < |ms| && (best0 == 0 ==> best == 0) && (best == best0 || best == ms[i].addr)
      && (best0 != 0 ==> FreeAt(ms, best) >= Unused(ms[i]))
  }

  lemma NewMinorIs(a: Major, k: nat, size: nat, req: nat)
    requires k <= |a.minors|
    ensures var m := NewMinor(a, k, size, req);
            && m.addr == GapStart(a, k) && m.req == req && m.size == size
            && 16 <= m.User() && 0 <= m.User() - m.addr - 48 < 256
  {
  }

  lemma GapFits(a: Major, k: nat, need: nat)
    requires FirstGap(a, k, need)
    ensures k <= |a.minors| && Fits(a, k, need)
  {
  }

  lemma FoundFacts(ms: seq<Major>, s: nat, started: bool, i: nat, k: nat, need: nat)
    requires Searched(ms, s, started, i, need) && i < |ms| && FirstGap(ms[i], k, need) && NoneEmpty(ms)
    ensures FirstMajor(ms, s, i, need) && NoneEmptyBut(ms, i)
    ensures !NoGaps(ms, 0, |ms|, need)
  {
  }

  // ---------------------------------------------------------------- the set of live minors

  lemma LiveSetHas(ms: seq<Major>, i: nat, k: nat)
    requires InHeap(ms, i, k)
    ensures ms[i].minors[k] in LiveSet(ms)
  {
  }

  lemma WhereLive(ms: seq<Major>, m: Minor) returns (i: nat, k: nat)
    requires m in LiveSet(ms)
    ensures At(ms, i, k, m)
  {
    var j, l :| 0 <= j < |ms| && 0 <= l < |ms[j].minors| && ms[j].minors[l] == m;
    i, k := j, l;
  }

  /** A placement adds exactly the new minor. */
  lemma LiveWith(ms: seq<Major>, i: nat, k: nat, size: nat, req: nat)
    requires MajorsOk(ms) && i < |ms| && k <= |ms[i].minors|
    requires Fits(ms[i], k, 48 + size) && req + 32 <= size
    ensures var m := NewMinor(ms[i], k, size, req);
            m !in LiveSet(ms) && LiveSet(With(ms, i, k, size, req)) == LiveSet(ms) + {m}
  {
    var m, after := NewMinor(ms[i], k, size, req), With(ms, i, k, size, req);
    WithOk(ms, i, k, size, req);
    assert At(after, i, k, m);
    forall o | o in LiveSet(after) ensures o in LiveSet(ms) + {m} {
      var j, l := WhereLive(after, o);
      WithMinors(ms, i, k, size, req, j, l);
    }
    forall o | o in LiveSet(ms) ensures o in LiveSet(after) && o != m {
      var j, l := WhereLive(ms, o);
      WithKeepsLive(ms, i, k, size, req, j, l);
      LiveApart(after, i, k, j, if j == i && k <= l then l + 1 else l);
    }
  }

  lemma LiveFresh(ms: seq<Major>, grant: nat, pages: nat)
    ensures LiveSet(ms + [FreshMajor(grant, pages)]) == LiveSet(ms)
  {
    var after := ms + [FreshMajor(grant, pages)];
    forall o | o in LiveSet(after) ensures o in LiveSet(ms) {
      var j, l := WhereLive(after, o);
    }
    forall o | o in LiveSet(ms) ensures o in LiveSet(after) {
      var j, l := WhereLive(ms, o);
      LiveSetHas(after, j, l);
    }
  }

  lemma LiveAfterFree(ms: seq<Major>, i: nat, k: nat, o: Minor)
    requires MajorsOk(ms) && InHeap(ms, i, k) && o in LiveSet(Without(ms, i, k))
    ensures o in LiveSet(ms) && o != ms[i].minors[k]
  {
    hide MajorsOk, LiveSet;
    var j, l := WhereLive(Without(ms, i, k), o);
    WithoutMinors(ms, i, k, j, l);
    var j0: nat, l0: nat :| At(ms, j0, l0, o) && (j0, l0) != (i, k);
    LiveApart(ms, i, k, j0, l0);
    LiveSetHas(ms, j0, l0);
  }

  lemma {:induction false} WithoutKeeps(ms: seq<Major>, i: nat, k: nat, j: nat, l: nat)
    requires InHeap(ms, i, k) && InHeap(ms, j, l) && (j, l) != (i, k)
    ensures if |ms[i].minors| == 1 then At(Without(ms, i, k), if j < i then j else j - 1, l, ms[j].minors[l])
            else At(Without(ms, i, k), j, if j == i && k < l then l - 1 else l, ms[j].minors[l])
  {
  }

  lemma LiveBeforeFree(ms: seq<Major>, i: nat, k: nat, o: Minor)
    requires InHeap(ms, i, k) && o in LiveSet(ms) && o != ms[i].minors[k]
    ensures o in LiveSet(Without(ms, i, k))
  {
    hide LiveSet;
    var j, l := WhereLive(ms, o);
    WithoutKeeps(ms, i, k, j, l);
    hide Without;
    if |ms[i].minors| == 1 {
      LiveSetHas(Without(ms, i, k), if j < i then j else j - 1, l);
    } else {
      LiveSetHas(Without(ms, i, k), j, if j == i && k < l then l - 1 else l);
    }
  }

  /** A free removes exactly the freed minor. */
  lemma LiveWithout(ms: seq<Major>, i: nat, k: nat)
    requires MajorsOk(ms) && InHeap(ms, i, k)
    ensures LiveSet(Without(ms, i, k)) == LiveSet(ms) - {ms[i].minors[k]}
  {
    hide MajorsOk, LiveSet, Without;
    forall o | o in LiveSet(Without(ms, i, k)) ensures o in LiveSet(ms) - {ms[i].minors[k]} {
      LiveAfterFree(ms, i, k, o);
    }
    forall o | o in LiveSet(ms) && o != ms[i].minors[k] ensures o in LiveSet(Without(ms, i, k)) {
      LiveBeforeFree(ms, i, k, o);
    }
  }

  /** Byte x belongs to the user range of m. */
  predicate UserByte(m: Minor, x: nat) {
    m.User() <= x < m.User() + m.req
  }

  /** Live user ranges are 16-aligned and apart from each other, and from every cookie and minor
      header. */
  lemma LiveMemory(ms: seq<Major>, m: Minor, o: Minor)
    requires MajorsOk(ms) && m in LiveSet(ms) && o in LiveSet(ms)
    ensures m.User() % 16 == 0 && 0 < m.User() && m.User() + m.req <= WORD
    ensures forall x: nat :: UserByte(m, x) ==>
              !(o.addr <= x < o.addr + 48) && x != o.User() - 16 && (m != o ==> !UserByte(o, x))
    ensures m != o ==> m.User() != o.User() && m.User() - 16 != o.User() - 16
    ensures m != o ==> m.User() + m.req <= o.User() || o.User() + o.req <= m.User()
  {
    var i, k := WhereLive(ms, m);
    var j, l := WhereLive(ms, o);
    UserRange(ms, i, k);
    UserRange(ms, j, l);
    if (i, k) != (j, l) {
      LiveApart(ms, i, k, j, l);
    }
  }

  lemma LivePointer(ms: seq<Major>, m: Minor)
    requires m in LiveSet(ms)
    ensures IsLive(ms, m.User())
  {
    var i, k := WhereLive(ms, m);
    assert Owns(ms, i, k, m.User());
  }

  lemma PointerIsUnique(ms: seq<Major>, m: Minor, i: nat, k: nat)
    requires MajorsOk(ms) && m in LiveSet(ms) && Owns(ms, i, k, m.User())
    ensures ms[i].minors[k] == m
  {
    var j, l := WhereLive(ms, m);
    UserIsUnique(ms, i, k, j, l);
  }

  /** Whatever the owner of a block writes into its user range, all cookies stay right. */
  lemma UserWritesKeepCookies(ms: seq<Major>, mem: nat -> byte, mem1: nat -> byte, m: Minor)
    requires MajorsOk(ms) && CookiesOk(ms, mem) && m in LiveSet(ms)
    requires forall x: nat :: !UserByte(m, x) ==> mem1(x) == mem(x)
    ensures CookiesOk(ms, mem1)
  {
    forall i: nat, k: nat | InHeap(ms, i, k) ensures CookieOk(mem1, ms[i].minors[k]) {
      LiveSetHas(ms, i, k);
      UserRange(ms, i, k);
      LiveMemory(ms, m, ms[i].minors[k]);
    }
  }

  // ---------------------------------------------------------------- freeing, shrinking

  lemma WithoutState(ms: seq<Major>, bestBet: nat, inuse: nat, held: nat, mem: nat -> byte, i: nat, k: nat)
    requires StateOk(ms, bestBet, inuse, held, mem) && NoneEmpty(ms) && InHeap(ms, i, k)
    ensures var gone := if |ms[i].minors| == 1 then ms[i].size else 0;
            var best := if |ms[i].minors| == 1 && bestBet == ms[i].addr then 0 else bestBet;
            && ms[i].minors[k].size <= inuse && gone <= held
            && StateOk(Without(ms, i, k), best, inuse - ms[i].minors[k].size, held - gone, mem)
            && NoneEmpty(Without(ms, i, k))
  {
    hide MajorOk, Apart;
    var after := Without(ms, i, k);
    WithoutOk(ms, i, k);
    forall j: nat, l: nat | InHeap(after, j, l) ensures CookieOk(mem, after[j].minors[l]) {
      WithoutMinors(ms, i, k, j, l);
    }
    if |ms[i].minors| == 1 {
      var b := IndexOf(ms, bestBet);
      if bestBet != 0 && bestBet != ms[i].addr {
        assert after[if b < i then b else b - 1].addr == bestBet;
      }
    } else {
      IndexOfWith(ms, i, Shrunk(ms[i], k), bestBet);
    }
  }

  /** The major after krealloc wrote a smaller req_size. */
  function Relabelled(ms: seq<Major>, i: nat, k: nat, req: nat): seq<Major>
    requires InHeap(ms, i, k)
  {
    ms[i := ms[i].(minors := ms[i].minors[k := ms[i].minors[k].(req := req)])]
  }

  lemma {:induction false} SizesRelabelled(ms: seq<Minor>, k: nat, req: nat)
    requires k < |ms|
    ensures Sizes(ms[k := ms[k].(req := req)]) == Sizes(ms)
  {
    if k == 0 {
      assert ms[0 := ms[0].(req := req)][1..] == ms[1..];
    } else {
      SizesRelabelled(ms[1..], k - 1, req);
      assert ms[k := ms[k].(req := req)][1..] == ms[1..][k - 1 := ms[k].(req := req)];
    }
  }

  lemma RelabelledOk(a: Major, k: nat, req: nat)
    requires MajorOk(a) && k < |a.minors| && req <= a.minors[k].req
    ensures MajorOk(a.(minors := a.minors[k := a.minors[k].(req := req)]))
    ensures Sizes(a.minors[k := a.minors[k].(req := req)]) == Sizes(a.minors)
  {
    var b := a.(minors := a.minors[k := a.minors[k].(req := req)]);
    SizesRelabelled(a.minors, k, req);
    forall j | 0 <= j <= |b.minors| ensures GapStart(b, j) <= GapEnd(b, j) {
      assert GapStart(a, j) <= GapEnd(a, j);
    }
  }

  lemma RelabelledState(ms: seq<Major>, bestBet: nat, inuse: nat, held: nat, mem: nat -> byte,
                        i: nat, k: nat, req: nat)
    requires StateOk(ms, bestBet, inuse, held, mem) && NoneEmpty(ms) && InHeap(ms, i, k)
    requires req <= ms[i].minors[k].req
    ensures StateOk(Relabelled(ms, i, k, req), bestBet, inuse, held, mem) && NoneEmpty(Relabelled(ms, i, k, req))
  {
    hide MajorOk, Apart, IndexOf;
    var after := Relabelled(ms, i, k, req);
    RelabelledOk(ms[i], k, req);
    ReplaceOk(ms, i, after[i]);
    SumsUpdate(ms, i, after[i]);
    IndexOfWith(ms, i, after[i], bestBet);
    hide CookiesOk;
    RelabelledCookies(ms, mem, i, k, req);
  }

  lemma RelabelledCookies(ms: seq<Major>, mem: nat -> byte, i: nat, k: nat, req: nat)
    requires CookiesOk(ms, mem) && InHeap(ms, i, k)
    ensures CookiesOk(Relabelled(ms, i, k, req), mem)
  {
    var after := Relabelled(ms, i, k, req);
    forall j: nat, l: nat | InHeap(after, j, l) ensures CookieOk(mem, after[j].minors[l]) {
      assert InHeap(ms, j, l) && CookieOk(mem, ms[j].minors[l]);
    }
  }

  lemma RelabelledLive(ms: seq<Major>, i: nat, k: nat, req: nat)
    requires MajorsOk(ms) && InHeap(ms, i, k)
    ensures var m := ms[i].minors[k];
            LiveSet(Relabelled(ms, i, k, req)) == LiveSet(ms) - {m} + {m.(req := req)}
  {
    hide MajorsOk, LiveSet;
    var after, m := Relabelled(ms, i, k, req), ms[i].minors[k];
    forall o | o in LiveSet(after) ensures o in LiveSet(ms) - {m} + {m.(req := req)} {
      var j, l := WhereLive(after, o);
      if (j, l) != (i, k) {
        LiveApart(ms, i, k, j, l);
        LiveSetHas(ms, j, l);
      }
    }
    LiveSetHas(after, i, k);
    forall o | o in LiveSet(ms) && o != m ensures o in LiveSet(after) {
      var j, l := WhereLive(ms, o);
      LiveSetHas(after, j, l);
    }
  }
}
