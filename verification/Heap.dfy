/** The kernel heap (mm/liballoc.c): kmalloc, kfree and krealloc, with the bytes of memory. */
module Heaps {
  import opened Sequences
  import opened HeapShapes
  import opened HeapStates

  /** CASE 3 and CASE 4: the lowest gap of a major that holds need bytes. */
  method FindGap(a: Major, need: nat) returns (k: nat)
    requires MajorOk(a) && a.minors != []
    ensures k <= |a.minors| ==> FirstGap(a, k, need)
    ensures k > |a.minors| ==> !HasGap(a, need)
  {
    assert GapStart(a, 0) <= GapEnd(a, 0);
    var diff := a.minors[0].addr - a.addr - 48;
    if diff >= need {
      return 0;
    }
    var min := 0;
    while min < |a.minors|
      invariant 0 <= min <= |a.minors|
      invariant forall j :: 0 <= j <= min ==> !Fits(a, j, need)
    {
      assert GapStart(a, min + 1) <= GapEnd(a, min + 1);
      if min + 1 == |a.minors| {
        diff := a.addr + a.size - a.minors[min].addr - 48 - a.minors[min].size;
        if diff >= need {
          return min + 1;
        }
      } else {
        diff := a.minors[min + 1].addr - a.minors[min].addr - 48 - a.minors[min].size;
        if diff >= need {
          return min + 1;
        }
      }
      min := min + 1;
    }
    return |a.minors| + 1;
  }

  lemma StateMajors(ms: seq<Major>, bestBet: nat, inuse: nat, held: nat, mem: nat -> byte)
    requires StateOk(ms, bestBet, inuse, held, mem)
    ensures MajorsOk(ms) && CookiesOk(ms, mem)
  {
  }

  /** The cookie of a live pointer leads to its minor. */
  lemma FindOwner(ms: seq<Major>, mem: nat -> byte, p: nat)
    requires MajorsOk(ms) && CookiesOk(ms, mem) && IsLive(ms, p)
    ensures 48 <= p < WORD && 48 <= Unalign(mem, p)
    ensures exists i, k :: 0 <= i < |ms| && 0 <= k < |ms[i].minors| && ms[i].minors[k].addr == Unalign(mem, p) - 48
  {
    var i: nat, k: nat :| Owns(ms, i, k, p);
    UserRange(ms, i, k);
    UnalignFindsMinor(mem, ms[i].minors[k]);
    assert ms[i].minors[k].addr == Unalign(mem, p) - 48;
  }

  lemma OwnerIs(ms: seq<Major>, mem: nat -> byte, p: nat, i: nat, k: nat)
    requires MajorsOk(ms) && CookiesOk(ms, mem) && IsLive(ms, p) && p < WORD && 48 <= Unalign(mem, p)
    requires InHeap(ms, i, k) && ms[i].minors[k].addr == Unalign(mem, p) - 48
    ensures Owns(ms, i, k, p)
  {
    var j: nat, l: nat :| Owns(ms, j, l, p);
    UserRange(ms, j, l);
    UnalignFindsMinor(mem, ms[j].minors[l]);
    UserIsUnique(ms, i, k, j, l);
  }

  lemma WithoutIs(ms: seq<Major>, i: nat, k: nat)
    requires InHeap(ms, i, k)
    ensures var b := Shrunk(ms[i], k);
            && (b.minors == [] <==> |ms[i].minors| == 1) && b.addr == ms[i].addr
            && Without(ms, i, k) == if b.minors == [] then RemoveAt(ms, i) else ms[i := b]
  {
  }

  /** The address of a major that was given back names no major any more. */
  lemma DroppedIs(ms: seq<Major>, i: nat)
    requires MajorsOk(ms) && i < |ms|
    ensures IndexOf(RemoveAt(ms, i), ms[i].addr) == |ms| - 1
  {
    var rest := RemoveAt(ms, i);
    var j := IndexOf(rest, ms[i].addr);
    if j < |rest| {
      var o := if j < i then j else j + 1;
      assert rest[j] == ms[o];
      MajorsApart(ms, i, o);
      UsageWithinSize(ms[i]);
      UsageWithinSize(ms[o]);
    }
  }

  predicate CopiedAt(mem0: nat -> byte, mem1: nat -> byte, d: nat, s: nat, n: nat, x: nat) {
    mem1(x) == if d <= x < d + n then mem0(s + x - d) else mem0(x)
  }

  /** mem1 is mem0 with the n bytes at s copied to d. */
  ghost predicate Copied(mem0: nat -> byte, mem1: nat -> byte, d: nat, s: nat, n: nat) {
    forall x: nat :: CopiedAt(mem0, mem1, d, s, n, x)
  }

  lemma CopiedNone(mem: nat -> byte, d: nat, s: nat)
    ensures Copied(mem, mem, d, s, 0)
  {
  }

  /** The source is unchanged while the copy goes on, and one more byte makes a longer copy. */
  lemma CopiedNext(mem0: nat -> byte, mem1: nat -> byte, d: nat, s: nat, n: nat, k: nat)
    requires Copied(mem0, mem1, d, s, k) && k < n && (d + n <= s || s + n <= d)
    ensures Copied(mem0, Poke(mem1, d + k, mem0(s + k)), d, s, k + 1) && mem1(s + k) == mem0(s + k)
  {
    assert CopiedAt(mem0, mem1, d, s, k, s + k);
    var mem2, k2 := Poke(mem1, d + k, mem0(s + k)), k + 1;
    forall x: nat ensures CopiedAt(mem0, mem2, d, s, k2, x) {
      assert CopiedAt(mem0, mem1, d, s, k, x);
    }
  }

  lemma CopiedSource(mem0: nat -> byte, mem1: nat -> byte, d: nat, s: nat, n: nat, k: nat, j: nat)
    requires Copied(mem0, mem1, d, s, k) && k <= j < n && (d + n <= s || s + n <= d)
    ensures mem1(s + j) == mem0(s + j)
  {
    assert CopiedAt(mem0, mem1, d, s, k, s + j);
  }

  lemma StateNewMem(ms: seq<Major>, bestBet: nat, inuse: nat, held: nat, mem0: nat -> byte, mem1: nat -> byte)
    requires StateOk(ms, bestBet, inuse, held, mem0) && CookiesOk(ms, mem1)
    ensures StateOk(ms, bestBet, inuse, held, mem1)
  {
  }

  /** A copy into a live block that is no larger than its request. */
  lemma CopyIntoBlock(ms: seq<Major>, bestBet: nat, inuse: nat, held: nat, mem0: nat -> byte, mem1: nat -> byte,
                      now: Minor, was: Minor)
    requires StateOk(ms, bestBet, inuse, held, mem0) && now in LiveSet(ms) && was in LiveSet(ms) && now != was
    requires was.req < now.req && Copied(mem0, mem1, now.User(), was.User(), was.req)
    ensures StateOk(ms, bestBet, inuse, held, mem1)
    ensures forall x: nat :: UserByte(was, x) ==> mem1(x - was.User() + now.User()) == mem0(x)
    ensures forall o, x: nat :: o in LiveSet(ms) && o != now && UserByte(o, x) ==> mem1(x) == mem0(x)
  {
    hide StateOk, LiveSet;
    StateMajors(ms, bestBet, inuse, held, mem0);
    forall x: nat | !UserByte(now, x) ensures mem1(x) == mem0(x) {
      assert CopiedAt(mem0, mem1, now.User(), was.User(), was.req, x);
    }
    UserWritesKeepCookies(ms, mem0, mem1, now);
    StateNewMem(ms, bestBet, inuse, held, mem0, mem1);
    forall x: nat | UserByte(was, x) ensures mem1(x - was.User() + now.User()) == mem0(x) {
      assert CopiedAt(mem0, mem1, now.User(), was.User(), was.req, x - was.User() + now.User());
    }
    forall o, x: nat | o in LiveSet(ms) && o != now && UserByte(o, x) ensures mem1(x) == mem0(x) {
      LiveMemory(ms, o, now);
    }
  }

  lemma CopiedNothing(ms: seq<Major>, bestBet: nat, inuse: nat, held: nat, mem0: nat -> byte, mem1: nat -> byte,
                      d: nat, s: nat)
    requires StateOk(ms, bestBet, inuse, held, mem0) && Copied(mem0, mem1, d, s, 0)
    ensures StateOk(ms, bestBet, inuse, held, mem1)
  {
    forall i: nat, k: nat | InHeap(ms, i, k) ensures CookieOk(mem1, ms[i].minors[k]) {
      assert CopiedAt(mem0, mem1, d, s, 0, ms[i].minors[k].User() - 16);
    }
  }

  /** Writing the cookie of a new block leaves all user memory alone. */
  lemma CookieApart(ms: seq<Major>, now: Minor, mem: nat -> byte, b: byte)
    requires MajorsOk(ms) && now in LiveSet(ms)
    ensures forall o, x: nat :: o in LiveSet(ms) && UserByte(o, x) ==> Poke(mem, now.User() - 16, b)(x) == mem(x)
  {
    forall o, x: nat | o in LiveSet(ms) && UserByte(o, x) ensures Poke(mem, now.User() - 16, b)(x) == mem(x) {
      LiveMemory(ms, o, now);
    }
  }

  /** What krealloc comes to: a pointer, or a copy to address 0 after a failed kmalloc, where the
      model stops. */
  datatype Answer = Ptr(p: nat) | CopiesToNull

  // ---------------------------------------------------------------- the heap

  class Heap {
    /** The list from l_memRoot on. */
    var majors: seq<Major>
    /** Address of l_bestBet, 0 for NULL. */
    var bestBet: nat
    /** l_inuse and l_allocated. */
    var inuse: nat
    var held: nat
    /** The bytes of memory outside the headers. */
    var mem: nat -> byte

    constructor (mem: nat -> byte)
      ensures Valid() && majors == []
    {
      majors, bestBet, inuse, held := [], 0, 0, 0;
      this.mem := mem;
    }

    ghost predicate State()
      reads this
    {
      StateOk(majors, bestBet, inuse, held, mem)
    }

    ghost predicate Valid()
      reads this
    {
      State() && NoneEmpty(majors)
    }

    /** allocate_new_page, and linking the new major behind the last one. grant is what
        liballoc_alloc hands out, 0 when it has no memory. */
    method NewMajor(size: nat, grant: nat) returns (ok: bool)
      requires State() && size + 393216 < WORD
      requires grant != 0 ==> CanGrant(majors, grant, PagesFor(size))
      modifies this`majors, this`held
      ensures State() && ok == (grant != 0)
      ensures majors == old(majors) + if ok then [FreshMajor(grant, PagesFor(size))] else []
    {
      if grant == 0 {
        return false;
      }
      var a := FreshMajor(grant, PagesFor(size));
      FreshOk(majors, grant, size);
      IndexOfAppend(majors, a, bestBet);
      assert forall i: nat, k: nat :: InHeap(majors + [a], i, k) ==> InHeap(majors, i, k);
      majors, held := majors + [a], held + a.size;
      return true;
    }

    /** The common end of the cases that find room: a minor at gap k of major i, the totals, and
        the aligned pointer behind its cookie. */
    method Place(i: nat, k: nat, size: nat, req: nat) returns (p: nat)
      requires State() && i < |majors| && k <= |majors[i].minors| && Fits(majors[i], k, 48 + size)
      requires req + 32 <= size && NoneEmptyBut(majors, i)
      modifies this`majors, this`inuse, this`mem
      ensures Valid()
      ensures majors == With(old(majors), i, k, size, req)
      ensures p == NewMinor(old(majors)[i], k, size, req).User()
      ensures mem == Poke(old(mem), p - 16, p - GapStart(old(majors)[i], k) - 48)
    {
      hide StateOk, With, Fits, NoneEmpty, NoneEmptyBut, Poke, Align, GapStart, Aligned, NewMinor;
      PlaceOk(majors, bestBet, inuse, held, mem, i, k, size, req);
      var at := GapStart(majors[i], k) + 48;
      AlignIsAligned(mem, at);
      majors, inuse := With(majors, i, k, size, req), inuse + size;
      var (bytes, q) := Align(mem, at);
      mem, p := bytes, q;
    }

    /** CASE 1 and CASE 5 when the last major had no room. */
    method Extend(ghost s: nat, size: nat, grant: nat) returns (ok: bool)
      requires Valid() && size + 393216 < WORD && s <= |majors| && NoGaps(majors, 0, |majors|, 48 + size)
      requires grant != 0 ==> CanGrant(majors, grant, PagesFor(size))
      modifies this`majors, this`held
      ensures ok == (grant != 0) && State()
      ensures if ok then Extended(old(majors), majors, s, size, grant) else majors == old(majors) && Valid()
      ensures FreeAt(majors, bestBet) == FreeAt(old(majors), bestBet)
    {
      hide StateOk, NoneEmpty, NoGaps, CanGrant, FreshMajor, PagesFor, FreeAt;
      BestFacts(majors, bestBet, inuse, held, mem);
      ok := NewMajor(size, grant);
      if ok {
        ExtendedBest(old(majors), majors, s, size, grant, bestBet);
      }
    }

    /** The unused bytes of a major, noting it when it has more of them than the best bet. */
    method Visit(maj: nat, bestSize: nat) returns (diff: nat, best: nat)
      requires State() && maj < |majors| && bestSize == FreeAt(majors, bestBet)
      modifies this`bestBet
      ensures State() && MajorOk(majors[maj]) && diff == majors[maj].size - majors[maj].usage
      ensures best == FreeAt(majors, bestBet) >= bestSize && best >= diff
      ensures bestBet != old(bestBet) ==> best > bestSize && bestBet == majors[maj].addr
    {
      hide StateOk, FreeAt, MajorOk;
      MajorFacts(majors, bestBet, inuse, held, mem, maj);
      diff, best := majors[maj].size - majors[maj].usage, bestSize;
      if best < diff {
        bestBet, best := majors[maj].addr, diff;
      }
    }

    /** The search of kmalloc: a gap for size bytes and a header. It ends, although it may start over
        once at the root. */
    method Search(size: nat, grant: nat) returns (ok: bool, maj: nat, gap: nat, ghost asked: bool)
      requires Valid() && size + 393216 < WORD
      requires grant != 0 ==> CanGrant(majors, grant, PagesFor(size))
      modifies this`majors, this`held, this`bestBet
      ensures State()
      ensures SearchResult(old(majors), old(bestBet), majors, bestBet, ok, maj, gap, asked, size, grant)
    {
      hide StateOk, NoneEmpty, NoGaps, HasGap, FirstGap, Extended, Underway, SearchResult, Topped, Unused;
      hide StartOf, FreeAt, CanGrant, FreshMajor, PagesFor, MajorOk, Fits, IndexOf, Apart;
      ghost var ms0, best0, s := majors, bestBet, StartOf(majors, bestBet, 48 + size);
      ok, maj, gap, asked := true, 0, 0, false;
      StartIs(ms0, bestBet, 48 + size);
      BestFacts(majors, bestBet, inuse, held, mem);
      var started, bestSize := false, 0;
      if majors == [] {
        asked := true;
        EmptyHeap(bestBet, size);
        ok := Extend(s, size, grant);
        if !ok {
          UnderwayRefused(ms0, best0, bestBet, 0, maj, gap, size);
          return;
        }
        UnderwayExtended(ms0, best0, majors, bestBet, 0, size, grant);
      }
      if bestBet != 0 {
        var b := IndexOf(majors, bestBet);
        bestSize := majors[b].size - majors[b].usage;
        if bestSize > size + 48 {
          maj, started := b, true;
        }
      }
      if !asked {
        UnderwayStarts(ms0, best0, bestSize, started, size, grant);
      }
      while maj < |majors|
        invariant State() && ok && gap == 0 && maj < |majors|
        invariant Underway(ms0, best0, majors, bestBet, bestSize, s, started, maj, asked, size, grant)
        decreases started, !asked, |majors| - maj
      {
        var diff;
        ghost var best1, size1 := bestBet, bestSize;
        UnderwayFacts(ms0, best0, majors, bestBet, bestSize, s, started, maj, asked, size, grant);
        diff, bestSize := Visit(maj, bestSize);
        UnusedIs(majors[maj]);
        UnderwayCompared(ms0, best0, majors, best1, size1, s, started, maj, asked, size, grant, bestBet, bestSize);
        if diff < size + 48 {
          FullHasNoGap(majors[maj], 48 + size);
          UnderwayNext(ms0, best0, majors, bestBet, bestSize, s, started, maj, size, grant);
          if maj + 1 < |majors| {
            maj := maj + 1;
            continue;
          }
          if started {
            maj, started := 0, false;
            continue;
          }
          asked := true;
          ok := Extend(s, size, grant);
          if !ok {
            UnderwayRefused(ms0, best0, bestBet, bestSize, maj, gap, size);
            return;
          }
          UnderwayExtended(ms0, best0, majors, bestBet, bestSize, size, grant);
          maj := maj + 1;
          return;
        }
        if majors[maj].minors == [] {
          UnderwayNew(ms0, best0, majors, bestBet, bestSize, maj, size, grant);
          return;
        }
        gap := FindGap(majors[maj], size + 48);
        if gap <= |majors[maj].minors| {
          UnderwayFound(ms0, best0, majors, bestBet, bestSize, started, maj, gap, size, grant);
          return;
        }
        gap := 0;
        UnderwayNext(ms0, best0, majors, bestBet, bestSize, s, started, maj, size, grant);
        if maj + 1 == |majors| {
          if started {
            maj, started := 0, false;
            continue;
          }
          asked := true;
          ok := Extend(s, size, grant);
          if !ok {
            UnderwayRefused(ms0, best0, bestBet, bestSize, maj, gap, size);
            return;
          }
          UnderwayExtended(ms0, best0, majors, bestBet, bestSize, size, grant);
        }
        maj := maj + 1;
      }
    }

    /** kmalloc: the place the search finds, unless a new major was needed and refused. */
    method Kmalloc(req: nat, grant: nat) returns (p: nat, ghost asked: bool, ghost i: nat, ghost k: nat, ghost m: Minor)
      requires Valid() && req < WORD && Servable(Asked(req))
      requires grant != 0 ==> CanGrant(majors, grant, PagesFor(Padded(Asked(req))))
      modifies this
      ensures Valid()
      ensures asked <==> NoGaps(old(majors), 0, |old(majors)|, 48 + Padded(Asked(req)))
      ensures p == 0 <==> asked && grant == 0
      ensures p == 0 ==> majors == old(majors) && mem == old(mem)
      ensures var size := Padded(Asked(req));
              var from := old(majors) + if asked && p != 0 then [FreshMajor(grant, PagesFor(size))] else [];
              && (p != 0 ==>
                && i < |from| && FirstGap(from[i], k, 48 + size)
                && FirstMajor(from, StartOf(old(majors), old(bestBet), 48 + size), i, 48 + size)
                && majors == With(from, i, k, size, Asked(req))
                && m == NewMinor(from[i], k, size, Asked(req)) && m.req == Asked(req) && p == m.User()
                && mem == Poke(old(mem), p - 16, p - m.addr - 48)
                && m !in LiveSet(old(majors)) && LiveSet(majors) == LiveSet(old(majors)) + {m})
              && (bestBet != old(bestBet) ==> FreeAt(from, bestBet) > FreeAt(old(majors), old(bestBet)))
              && Noted(old(majors), old(bestBet), from, bestBet, StartOf(old(majors), old(bestBet), 48 + size),
                       p != 0, i, asked, 48 + size)
      ensures old(majors) == [] && p != 0 ==> bestBet == grant
      decreases Padded(req) == 0
    {
      hide StateOk, NoneEmpty, NoneEmptyBut, NoGaps, FirstGap, FirstMajor, With, NewMinor, GapStart, StartOf, Asked;
      hide FreeAt, CanGrant, FreshMajor, Padded, PagesFor, Servable, Poke, Fits, MajorsOk, LiveSet, SearchResult, Noted;
      AskedIs(req);
      var size := Padded(req);
      if size == 0 {
        p, asked, i, k, m := Kmalloc(1, grant);
        return;
      }
      ServableMeans(req);
      var ok, maj, gap;
      ok, maj, gap, asked := Search(size, grant);
      SearchResultIs(old(majors), old(bestBet), majors, bestBet, ok, maj, gap, asked, size, grant);
      i, k, p, m := maj, gap, 0, Minor(0, 0, req);
      if ok {
        GapFits(majors[maj], gap, 48 + size);
        StateMajors(majors, bestBet, inuse, held, mem);
        m := NewMinor(majors[maj], gap, size, req);
        NewMinorIs(majors[maj], gap, size, req);
        LiveWith(majors, maj, gap, size, req);
        LiveFresh(old(majors), grant, PagesFor(size));
        assert old(majors) + [] == old(majors);
        p := Place(maj, gap, size, req);
      }
    }

    /** kfree of a live pointer: removes exactly its minor, found through the cookie, and gives
        an emptied major back. The best bet is dropped with its major, or moves to a major with
        more unused bytes. */
    method Kfree(p: nat) returns (ghost i: nat, ghost k: nat)
      requires Valid() && IsLive(majors, p)
      modifies this
      ensures Valid() && mem == old(mem)
      ensures Owns(old(majors), i, k, p) && majors == Without(old(majors), i, k)
      ensures LiveSet(majors) == LiveSet(old(majors)) - {old(majors)[i].minors[k]}
      ensures bestBet != old(bestBet) ==>
                (bestBet == 0 && IndexOf(majors, old(bestBet)) == |majors|)
                || FreeAt(majors, bestBet) > FreeAt(majors, old(bestBet))
      ensures BetAfterFree(old(majors), old(bestBet), majors, bestBet, i)
    {
      hide StateOk, NoneEmpty, Without, MajorsOk, MajorOk, CookiesOk, LiveSet, Unalign, Shrunk, FreeAt, IsLive;
      hide BetAfterFree;
      StateMajors(majors, bestBet, inuse, held, mem);
      FindOwner(majors, mem, p);
      var min := Unalign(mem, p) - 48;
      var maj, n :| 0 <= maj < |majors| && 0 <= n < |majors[maj].minors| && majors[maj].minors[n].addr == min;
      i, k := maj, n;
      OwnerIs(majors, mem, p, maj, n);
      LiveWithout(majors, maj, n);
      Detach(maj, n);
    }

    /** The minor is taken off its major, an emptied major is given back, and the best bet is
        reconsidered. */
    method Detach(maj: nat, n: nat)
      requires Valid() && InHeap(majors, maj, n)
      modifies this`majors, this`bestBet, this`inuse, this`held
      ensures Valid() && majors == Without(old(majors), maj, n)
      ensures bestBet != old(bestBet) ==>
                (bestBet == 0 && IndexOf(majors, old(bestBet)) == |majors|)
                || FreeAt(majors, bestBet) > FreeAt(majors, old(bestBet))
      ensures BetAfterFree(old(majors), old(bestBet), majors, bestBet, maj)
    {
      hide StateOk, NoneEmpty, Without, MajorsOk, MajorOk, CookiesOk, Shrunk, FreeAt;
      StateMajors(majors, bestBet, inuse, held, mem);
      WithoutState(majors, bestBet, inuse, held, mem, maj, n);
      WithoutIs(majors, maj, n);
      var a, b := majors[maj], Shrunk(majors[maj], n);
      inuse := inuse - a.minors[n].size;
      if b.minors == [] {
        DroppedIs(majors, maj);
        if bestBet == a.addr {
          bestBet := 0;
        }
        majors, held := RemoveAt(majors, maj), held - a.size;
      } else {
        majors := majors[maj := b];
        if bestBet != 0 {
          BestFacts(majors, bestBet, inuse, held, mem);
          MajorFacts(majors, bestBet, inuse, held, mem, maj);
          var best := IndexOf(majors, bestBet);
          var bestSize := majors[best].size - majors[best].usage;
          if b.size - b.usage > bestSize {
            bestBet := b.addr;
          }
        }
      }
    }

    /** liballoc_memcpy: four bytes at a time, then one at a time. */
    method Memcpy(d: nat, s: nat, n: nat)
      requires d + n <= s || s + n <= d
      modifies this`mem
      ensures Copied(old(mem), mem, d, s, n)
    {
      hide Copied, Poke;
      var k: nat := 0;
      CopiedNone(mem, d, s);
      while n - k >= 4
        invariant k <= n && Copied(old(mem), mem, d, s, k)
      {
        CopiedSource(old(mem), mem, d, s, n, k, k + 1);
        CopiedSource(old(mem), mem, d, s, n, k, k + 2);
        CopiedSource(old(mem), mem, d, s, n, k, k + 3);
        var b0, b1, b2, b3 := mem(s + k), mem(s + (k + 1)), mem(s + (k + 2)), mem(s + (k + 3));
        CopiedNext(old(mem), mem, d, s, n, k);
        var mem1 := Poke(mem, d + k, b0);
        CopiedNext(old(mem), mem1, d, s, n, k + 1);
        var mem2 := Poke(mem1, d + (k + 1), b1);
        CopiedNext(old(mem), mem2, d, s, n, k + 2);
        var mem3 := Poke(mem2, d + (k + 2), b2);
        CopiedNext(old(mem), mem3, d, s, n, k + 3);
        mem := Poke(mem3, d + (k + 3), b3);
        k := k + 4;
      }
      while k < n
        invariant k <= n && Copied(old(mem), mem, d, s, k)
      {
        CopiedNext(old(mem), mem, d, s, n, k);
        mem := Poke(mem, d + k, mem(s + k));
        k := k + 1;
      }
    }

    /** The end of krealloc: a larger block for a live one. */
    method Move(p: nat, size: nat, grant: nat, realSize: nat, ghost was: Minor)
      returns (out: Answer, ghost now: Minor)
      requires Valid() && Servable(size) && was in LiveSet(majors) && was.User() == p && realSize == was.req < size
      requires grant != 0 ==> CanGrant(majors, grant, PagesFor(Padded(size)))
      modifies this
      ensures Valid()
      ensures (out == CopiesToNull || out == Ptr(0)) <==>
                (grant == 0 && NoGaps(old(majors), 0, |old(majors)|, 48 + Padded(size)))
      ensures out.Ptr? && out.p != 0 ==>
                && now.User() == out.p && now.req == size && now !in LiveSet(old(majors))
                && LiveSet(majors) == LiveSet(old(majors)) - {was} + {now}
                && (forall x: nat :: UserByte(was, x) ==> mem(x - p + out.p) == old(mem)(x))
                && forall o, x: nat :: o in LiveSet(old(majors)) && UserByte(o, x) ==> mem(x) == old(mem)(x)
      ensures out == CopiesToNull ==> was.req > 0 && LiveSet(majors) == LiveSet(old(majors)) && mem == old(mem)
      ensures out == Ptr(0) ==> was.req == 0 && LiveSet(majors) == LiveSet(old(majors)) - {was}
    {
      hide StateOk, NoneEmpty, Without, With, MajorsOk, LiveSet, FreeAt, NoGaps, FirstGap, FirstMajor, UserByte;
      hide CookiesOk, CanGrant, Servable, Padded, PagesFor, Poke, NewMinor, StartOf, FreshMajor, Copied, GapStart;
      hide Asked;
      ServableMeans(size);
      StateMajors(majors, bestBet, inuse, held, mem);
      var ptr;
      ghost var asked, i, k;
      ghost var ms0 := majors;
      ptr, asked, i, k, now := Kmalloc(size, grant);
      if ptr == 0 {
        if 0 < realSize {
          return CopiesToNull, now;
        }
        ghost var mem0 := mem;
        Memcpy(ptr, p, realSize);
        CopiedNothing(majors, bestBet, inuse, held, mem0, mem, ptr, p);
      } else {
        StateMajors(majors, bestBet, inuse, held, mem);
        CookieApart(majors, now, old(mem), ptr - now.addr - 48);
        LiveMemory(majors, was, now);
        ghost var mem0 := mem;
        Memcpy(ptr, p, realSize);
        CopyIntoBlock(majors, bestBet, inuse, held, mem0, mem, now, was);
      }
      LivePointer(majors, was);
      ghost var ms1 := majors;
      StateMajors(majors, bestBet, inuse, held, mem);
      i, k := Kfree(p);
      PointerIsUnique(ms1, was, i, k);
      return Ptr(ptr), now;
    }

    /** krealloc of NULL or a live pointer. In place when the req_size of the block is large
        enough; otherwise a new block with the old contents, all other user memory as it was.
        When the inner kmalloc fails, the copy goes to address 0. */
    method Krealloc(p: nat, size: nat, grant: nat) returns (out: Answer, ghost was: Minor, ghost now: Minor)
      requires Valid() && Servable(size)
      requires if p == 0 then size != 0 else IsLive(majors, p)
      requires grant != 0 ==> CanGrant(majors, grant, PagesFor(Padded(size)))
      modifies this
      ensures Valid()
      ensures p != 0 ==> was in LiveSet(old(majors)) && was.User() == p
      ensures p != 0 && size == 0 ==>
                out == Ptr(0) && LiveSet(majors) == LiveSet(old(majors)) - {was} && mem == old(mem)
      ensures p != 0 && 0 < size <= was.req ==>
                out == Ptr(p) && mem == old(mem) && bestBet == old(bestBet)
                && LiveSet(majors) == LiveSet(old(majors)) - {was} + {was.(req := size)}
      ensures p == 0 || size > was.req ==>
                ((out == CopiesToNull || out == Ptr(0)) <==>
                  (grant == 0 && NoGaps(old(majors), 0, |old(majors)|, 48 + Padded(size))))
      ensures (p == 0 || size > was.req) && out.Ptr? && out.p != 0 ==>
                && now.User() == out.p && now.req == size && now !in LiveSet(old(majors))
                && LiveSet(majors) == LiveSet(old(majors)) - (if p == 0 then {} else {was}) + {now}
                && (p != 0 ==> forall x: nat :: UserByte(was, x) ==> mem(x - p + out.p) == old(mem)(x))
                && forall o, x: nat :: o in LiveSet(old(majors)) && UserByte(o, x) ==> mem(x) == old(mem)(x)
      ensures out == CopiesToNull ==>
                p != 0 && size > was.req > 0 && LiveSet(majors) == LiveSet(old(majors)) && mem == old(mem)
      ensures (p == 0 || size > was.req) && out == Ptr(0) ==>
                && LiveSet(majors) == LiveSet(old(majors)) - (if p == 0 then {} else {was})
                && (p != 0 ==> was.req == 0)
    {
      hide StateOk, NoneEmpty, Without, With, MajorsOk, LiveSet, FreeAt, NoGaps, FirstGap, FirstMajor, UserByte;
      hide CookiesOk, CanGrant, Servable, Padded, PagesFor, Poke, NewMinor, StartOf, FreshMajor, Relabelled, Unalign;
      hide Asked;
      ServableMeans(size);
      was, now := Minor(0, 0, 0), Minor(0, 0, 0);
      StateMajors(majors, bestBet, inuse, held, mem);
      ghost var ms0 := majors;
      if size == 0 {
        ghost var i, k := Kfree(p);
        was := ms0[i].minors[k];
        LiveSetHas(ms0, i, k);
        return Ptr(0), was, now;
      }
      if p == 0 {
        var ptr;
        ghost var asked, i, k;
        ptr, asked, i, k, now := Kmalloc(size, grant);
        if ptr != 0 {
          StateMajors(majors, bestBet, inuse, held, mem);
          CookieApart(majors, now, old(mem), ptr - now.addr - 48);
        }
        return Ptr(ptr), was, now;
      }
      FindOwner(majors, mem, p);
      var min := Unalign(mem, p) - 48;
      var maj, n :| 0 <= maj < |majors| && 0 <= n < |majors[maj].minors| && majors[maj].minors[n].addr == min;
      OwnerIs(majors, mem, p, maj, n);
      LiveSetHas(majors, maj, n);
      was := majors[maj].minors[n];
      var realSize := majors[maj].minors[n].req;
      if realSize >= size {
        RelabelledState(majors, bestBet, inuse, held, mem, maj, n, size);
        RelabelledLive(majors, maj, n, size);
        majors := Relabelled(majors, maj, n, size);
        return Ptr(p), was, now;
      }
      out, now := Move(p, size, grant, realSize, was);
    }
  }
}
