/** The bitmap of one range of page frames (mm/pfmgr.c): pfmgr_mark_bmp and pfmgr_clear_bmp work
    a 64-bit word at a time, with a fast path whose mask is not shifted to the start bit. Both
    are proved against the set of marked frames. */
module FrameBitmaps {

  /** A 64-bit word of the bitmap, as the set of positions of its one bits: & is *, | is +,
      & ~ is -, (1 << n) - 1 is Run(0, n) and 1 << i is Run(i, 1). */
  type Word = s: set<nat> | forall i :: i in s ==> i < 64
    witness {}

  predicate From(a: nat, i: nat) {
    a <= i
  }

  function Run(ix: nat, n: nat): Word
    requires ix + n <= 64
  {
    set i: nat | i < ix + n && From(ix, i)
  }

  /** Why Run(0, n) stands for the mask (1 << n) - 1: bit i of that word is one exactly when i < n. */
  lemma LowIsTheMask(n: bv64, i: bv64)
    requires n < 64 && i < 64
    ensures ((((1 as bv64) << n) - 1) >> i) & 1 == 1 <==> i < n
  {
  }

  function Min(a: nat, b: nat): nat {
    if a < b then a else b
  }

  // ---------------------------------------------------------------- the set of marked frames

  function Frames(a: nat, b: nat): set<nat> {
    set f: nat | f < b && From(a, f)
  }

  lemma {:induction false} FramesSize(a: nat, b: nat)
    requires a <= b
    ensures |Frames(a, b)| == b - a
    decreases b - a
  {
    if a < b {
      FramesSize(a + 1, b);
      assert Frames(a, b) == {a} + Frames(a + 1, b);
    }
  }

  function Marked(words: seq<Word>): set<nat> {
    set f: nat | f < 64 * |words| && f % 64 in words[f / 64]
  }

  function Shifted(w: nat, s: Word): set<nat> {
    set i: nat | i in s :: 64 * w + i
  }

  lemma WordAndBit(w: nat, i: nat)
    requires i < 64
    ensures (64 * w + i) / 64 == w && (64 * w + i) % 64 == i
  {
  }

  lemma ShiftedHas(w: nat, s: Word, f: nat)
    ensures f in Shifted(w, s) <==> f / 64 == w && f % 64 in s
  {
    if f in Shifted(w, s) {
      var i :| i in s && f == 64 * w + i;
      WordAndBit(w, i);
    }
    if f / 64 == w && f % 64 in s {
      assert f == 64 * w + f % 64;
    }
  }

  lemma MarkedOr(words: seq<Word>, w: nat, s: Word)
    requires w < |words|
    ensures Marked(words[w := words[w] + s]) == Marked(words) + Shifted(w, s)
  {
    forall f: nat ensures f in Marked(words[w := words[w] + s]) <==> f in Marked(words) + Shifted(w, s) {
      ShiftedHas(w, s, f);
    }
  }

  lemma MarkedAndNot(words: seq<Word>, w: nat, s: Word)
    requires w < |words|
    ensures Marked(words[w := words[w] - s]) == Marked(words) - Shifted(w, s)
  {
    forall f: nat ensures f in Marked(words[w := words[w] - s]) <==> f in Marked(words) - Shifted(w, s) {
      ShiftedHas(w, s, f);
    }
  }

  lemma BitIsFrame(words: seq<Word>, w: nat, i: nat)
    requires w < |words| && i < 64
    ensures i in words[w] <==> 64 * w + i in Marked(words)
  {
    WordAndBit(w, i);
  }

  lemma OneFrame(f: nat)
    ensures Frames(f, f + 1) == {f}
  {
  }

  /** n bits of one word from bit ix on are n consecutive frames. */
  lemma ShiftedRun(w: nat, ix: nat, n: nat)
    requires ix + n <= 64
    ensures Shifted(w, Run(ix, n)) == Frames(64 * w + ix, 64 * w + ix + n)
  {
    forall f: nat
      ensures f in Shifted(w, Run(ix, n)) <==> f in Frames(64 * w + ix, 64 * w + ix + n)
    {
      ShiftedHas(w, Run(ix, n), f);
    }
  }

  /** The first frame of the word that holds pos. */
  function WordStart(pos: nat): nat {
    pos - pos % 64
  }

  lemma WordStartIs(pos: nat)
    ensures WordStart(pos) == 64 * (pos / 64) && pos == 64 * (pos / 64) + pos % 64
  {
  }

  /** The first n frames of the word that holds pos are free: the test of the fast path of
      pfmgr_mark_bmp, whose mask is not shifted to pos. */
  predicate WordFree(m: set<nat>, pos: nat, n: nat) {
    m !! Frames(WordStart(pos), WordStart(pos) + n)
  }

  lemma LowBitsFree(words: seq<Word>, pos: nat, n: nat)
    requires pos / 64 < |words| && n <= 64
    ensures words[pos / 64] !! Run(0, n) <==> WordFree(Marked(words), pos, n)
  {
    hide Marked, WordStart;
    WordStartIs(pos);
    var w, first := pos / 64, WordStart(pos);
    if words[w] !! Run(0, n) {
      forall f | f in Frames(first, first + n) ensures f !in Marked(words) {
        BitIsFrame(words, w, f - first);
      }
    } else {
      var i :| i in words[w] && i in Run(0, n);
      BitIsFrame(words, w, i);
      assert first + i in Frames(first, first + n);
    }
  }

  lemma FramesAppend(a: nat, b: nat, c: nat)
    requires a <= b <= c
    ensures Frames(a, c) == Frames(a, b) + Frames(b, c) && Frames(a, b) !! Frames(b, c)
    ensures Frames(a, a) == {}
    ensures b < c ==> b in Frames(a, c)
  {
  }

  lemma Disjoint<T>(a: set<T>, b: set<T>)
    ensures a * b == {} <==> a !! b
  {
    if a * b == {} {
      forall x | x in a ensures x !in b {
        assert x in a * b <==> x in b;
      }
    }
  }

  lemma LowPart<T>(a: set<T>, b: set<T>)
    ensures a * b == a <==> a <= b
  {
  }

  lemma FramesApart(a: nat, b: nat, c: nat, d: nat)
    requires a <= b <= c <= d
    ensures Frames(a, b) !! Frames(c, d) && Frames(b, c) !! Frames(c, d) && Frames(a, b) !! Frames(b, c)
  {
  }

  lemma SizeAdds(a: set<nat>, b: set<nat>)
    requires a !! b
    ensures |a + b| == |a| + |b|
  {
  }

  lemma SizeDrops(a: set<nat>, b: set<nat>)
    requires b <= a
    ensures |a - b| == |a| - |b|
  {
    assert a == (a - b) + b;
  }

  lemma {:induction false} SubsetSize(a: set<nat>, b: set<nat>)
    requires b <= a
    ensures |b| <= |a|
  {
    SizeDrops(a, b);
  }

  lemma DropCounts(m: set<nat>, f: set<nat>)
    ensures |m - f| + |f| >= |m|
    ensures |m - f| + |f| == |m| <==> f <= m
  {
    SizeDrops(m, m * f);
    assert m - f == m - m * f;
    SizeDrops(f, m * f);
    if m * f != f {
      var x :| x in f && x !in m;
      assert x in f - m * f;
    }
  }

  /** The free frames by the count and the marked ones together. */
  ghost function Total(avail: nat, m: set<nat>): nat {
    avail + |m|
  }

  lemma MarkKeepsTotal(avail: nat, m: set<nat>, a: nat, b: nat)
    requires a <= b && b - a <= avail && m !! Frames(a, b)
    ensures Total(avail - (b - a), m + Frames(a, b)) == Total(avail, m)
  {
    SizeAdds(m, Frames(a, b));
    FramesSize(a, b);
  }

  /** Counting the frames taken out of the marks as freed keeps the total exactly when all of
      them were marked. */
  lemma ClearKeepsTotal(avail: nat, m: set<nat>, a: nat, b: nat)
    requires a <= b
    ensures Total(avail + (b - a), m - Frames(a, b)) >= Total(avail, m)
    ensures Total(avail + (b - a), m - Frames(a, b)) == Total(avail, m) <==> Frames(a, b) <= m
  {
    DropCounts(m, Frames(a, b));
    FramesSize(a, b);
  }

  // ---------------------------------------------------------------- what marking does

  /** The number of frames the first round of pfmgr_mark_bmp covers. */
  function FirstRun(pos: nat, pf: nat): nat {
    Min(64 - pos % 64, pf)
  }

  /** The first round starts inside a word and its unshifted mask finds only zeros: the fast
      path is taken although it is not looking at the frames that were asked for. */
  predicate Misses(m: set<nat>, pos: nat, pf: nat) {
    pos % 64 != 0 && 0 < pf && WordFree(m, pos, FirstRun(pos, pf))
  }

  /** The frames pfmgr_mark_bmp marks for a request of free frames. */
  function MarkedFor(m: set<nat>, pos: nat, pf: nat): set<nat> {
    if Misses(m, pos, pf) then
      Frames(WordStart(pos), WordStart(pos) + FirstRun(pos, pf)) + Frames(pos + FirstRun(pos, pf), pos + pf)
    else Frames(pos, pos + pf)
  }

  /** Marking gives the frames asked for exactly when it starts at a word boundary or some frame
      among the word's first FirstRun ones is taken already (bit 0 being set is enough). */
  lemma MarkIsRightIff(m: set<nat>, pos: nat, pf: nat)
    requires m !! Frames(pos, pos + pf)
    ensures m + MarkedFor(m, pos, pf) == m + Frames(pos, pos + pf) <==> !Misses(m, pos, pf)
    ensures WordStart(pos) in m ==> !Misses(m, pos, pf)
  {
    if Misses(m, pos, pf) {
      var first := WordStart(pos);
      assert first in Frames(first, first + FirstRun(pos, pf));
      assert first in m + MarkedFor(m, pos, pf) && first !in m + Frames(pos, pos + pf);
    }
    if WordStart(pos) in m && 0 < pf {
      assert WordStart(pos) in Frames(WordStart(pos), WordStart(pos) + FirstRun(pos, pf));
    }
  }

  /** A request the source can receive that goes wrong: nothing is marked and frame 1 is asked
      for. Frame 0 is marked instead. */
  lemma MarkMissesFrameOne()
    ensures Misses({}, 1, 1) && MarkedFor({}, 1, 1) == {0} && {0} != Frames(1, 2)
  {
    assert 0 !in Frames(1, 2);
    assert Frames(0, 1) == {0} && Frames(2, 2) == {};
  }

  /** How many of the n frames from pos on are free before the first that is marked. */
  function FreeRun(m: set<nat>, pos: nat, n: nat): nat
    decreases n
  {
    if n == 0 || pos in m then 0 else 1 + FreeRun(m, pos + 1, n - 1)
  }

  lemma {:induction false} FreeRunUnique(m: set<nat>, pos: nat, n: nat, d: nat)
    requires d <= n && m !! Frames(pos, pos + d) && (d < n ==> pos + d in m)
    ensures FreeRun(m, pos, n) == d
    decreases n
  {
    if d > 0 {
      FramesAppend(pos, pos + 1, pos + d);
      assert pos in Frames(pos, pos + d);
      FreeRunUnique(m, pos + 1, n - 1, d - 1);
    }
  }

  /** The marks, the count of free frames and the frames still to mark; taken: a frame of the
      request turned out to be marked, and the call does not return. */
  datatype Marking = Marking(m: set<nat>, avail: nat, pf: nat, taken: bool)

  /** What the rounds of pfmgr_mark_bmp leave, whatever is asked for. */
  ghost function MarksLeft(m: set<nat>, avail: nat, total: nat, pos: nat, pf: nat): Marking
    decreases pf
  {
    if pos >= total || avail == 0 || pf == 0 then Marking(m, avail, pf, false)
    else
      var n := Min(Min(64 - pos % 64, pf), avail);
      if WordFree(m, pos, n) then
        MarksLeft(m + Frames(WordStart(pos), WordStart(pos) + n), avail - n, total, pos + n, pf - n)
      else
        var d := FreeRun(m, pos, n);
        var m' := m + Frames(pos, pos + d);
        if d < n then Marking(m', avail - d, pf, true) else MarksLeft(m', avail - n, total, pos + n, pf - n)
  }

  /** One round, as the loop runs it. */
  lemma MarkedOneRound(m: set<nat>, avail: nat, total: nat, pos: nat, pf: nat, done: nat, m1: set<nat>)
    requires pos < total && avail > 0 && 0 < pf
    requires var n := Min(Min(64 - pos % 64, pf), avail);
             && done <= n
             && if WordFree(m, pos, n) then done == n && m1 == m + Frames(WordStart(pos), WordStart(pos) + n)
                else
                  && m1 == m + Frames(pos, pos + done) && m !! Frames(pos, pos + done)
                  && (done < n ==> pos + done in m)
    ensures var n := Min(Min(64 - pos % 64, pf), avail);
            MarksLeft(m, avail, total, pos, pf) ==
              if done < n then Marking(m1, avail - done, pf, true)
              else MarksLeft(m1, avail - n, total, pos + n, pf - n)
  {
    hide Frames, WordFree, WordStart, FreeRun;
    var n := Min(Min(64 - pos % 64, pf), avail);
    if !WordFree(m, pos, n) {
      FreeRunUnique(m, pos, n, done);
    }
  }

  lemma MarksEnd(m: set<nat>, avail: nat, total: nat, pos: nat, pf: nat)
    requires pos >= total || avail == 0 || pf == 0
    ensures MarksLeft(m, avail, total, pos, pf) == Marking(m, avail, pf, false)
  {
  }

  /** The end of the word that holds the last frame of the range. */
  function LastWordEnd(total: nat): nat {
    (total + 63) / 64 * 64
  }

  /** What the first round of a request of free frames marks. */
  function FirstMarked(m: set<nat>, pos: nat, n: nat): set<nat> {
    if WordFree(m, pos, n) then Frames(WordStart(pos), WordStart(pos) + n) else Frames(pos, pos + n)
  }

  lemma FreeRound(m: set<nat>, avail: nat, total: nat, pos: nat, pf: nat)
    requires m !! Frames(pos, pos + pf) && pf <= avail && 0 < pf && pos < total
    ensures var n := FirstRun(pos, pf);
            var m' := m + FirstMarked(m, pos, n);
            && m' !! Frames(pos + n, pos + pf)
            && MarksLeft(m, avail, total, pos, pf) == MarksLeft(m', avail - n, total, pos + n, pf - n)
  {
    hide Frames, WordFree, WordStart, MarksLeft;
    var n, first := FirstRun(pos, pf), WordStart(pos);
    WordStartGrows(pos, 0);
    FramesAppend(pos, pos + n, pos + pf);
    FramesApart(first, first + n, pos + n, pos + pf);
    MarkedOneRound(m, avail, total, pos, pf, n, m + FirstMarked(m, pos, n));
  }

  lemma RoundsJoin(m: set<nat>, pos: nat, pf: nat)
    requires 0 < pf
    ensures var n := FirstRun(pos, pf);
            var m' := m + FirstMarked(m, pos, n);
            n <= pf && m' + MarkedFor(m', pos + n, pf - n) == m + MarkedFor(m, pos, pf)
  {
    var n, first := FirstRun(pos, pf), WordStart(pos);
    WordStartIs(pos);
    FramesAppend(pos, pos + n, pos + pf);
    FramesAppend(pos + n, pos + n, pos + pf);
    hide Frames, WordFree, WordStart;
    assert !Misses(m + FirstMarked(m, pos, n), pos + n, pf - n);
  }

  /** A request of free frames, as many as the count allows: frames are marked up to the end of the
      last word, past the end of the range, and what lies beyond that is left over. */
  lemma {:induction false} FreeIsMarked(m: set<nat>, avail: nat, total: nat, pos: nat, pf: nat)
    requires m !! Frames(pos, pos + pf) && pf <= avail
    ensures var over := LeftOver(total, pos, pf);
            MarksLeft(m, avail, total, pos, pf)
              == Marking(m + MarkedFor(m, pos, pf - over), avail - (pf - over), over, false)
    decreases pf
  {
    hide Frames, WordFree, WordStart, MarksLeft, FirstMarked, MarkedFor;
    if pos < total && 0 < pf {
      var n, over := FirstRun(pos, pf), LeftOver(total, pos, pf);
      FreeRound(m, avail, total, pos, pf);
      LeftOverStays(total, pos, pf);
      FreeIsMarked(m + FirstMarked(m, pos, n), avail - n, total, pos + n, pf - n);
      RoundsJoin(m, pos, pf - over);
    } else {
      MarksEnd(m, avail, total, pos, pf);
      MarkedForNone(m, pos);
    }
  }

  function LeftOver(total: nat, pos: nat, pf: nat): (over: nat)
    ensures over <= pf
  {
    if pos >= total then pf else if pos + pf > LastWordEnd(total) then pos + pf - LastWordEnd(total) else 0
  }

  lemma LeftOverStays(total: nat, pos: nat, pf: nat)
    requires pos < total && 0 < pf
    ensures var n := FirstRun(pos, pf);
            && LeftOver(total, pos + n, pf - n) == LeftOver(total, pos, pf) <= pf - n
            && FirstRun(pos, pf - LeftOver(total, pos, pf)) == n
  {
  }

  lemma MarkedForNone(m: set<nat>, pos: nat)
    ensures m + MarkedFor(m, pos, 0) == m
  {
  }

  lemma {:induction false} FreeRunIs(m: set<nat>, pos: nat, n: nat)
    ensures var d := FreeRun(m, pos, n); d <= n && m !! Frames(pos, pos + d) && (d < n ==> pos + d in m)
    decreases n
  {
    FramesAppend(pos, pos, pos);
    if n > 0 && pos !in m {
      FreeRunIs(m, pos + 1, n - 1);
      FramesAppend(pos, pos + 1, pos + 1 + FreeRun(m, pos + 1, n - 1));
      OneFrame(pos);
    }
  }

  /** The frames that marking looks at. */
  function LookedAt(m: set<nat>, pos: nat, pf: nat): set<nat> {
    if Misses(m, pos, pf) then Frames(pos + FirstRun(pos, pf), pos + pf) else Frames(pos, pos + pf)
  }

  /** The call ends in its endless loop exactly when a frame that it looks at is taken. */
  lemma {:induction false} TakenIff(m: set<nat>, avail: nat, total: nat, pos: nat, pf: nat)
    requires pf <= avail && pos + pf <= total
    ensures MarksLeft(m, avail, total, pos, pf).taken <==> !(m !! LookedAt(m, pos, pf))
    decreases pf
  {
    hide Frames, WordFree, WordStart, MarksLeft, FreeRun;
    FramesAppend(pos, pos, pos);
    if 0 < pf {
      var n := FirstRun(pos, pf);
      FreeRunIs(m, pos, n);
      var d := if WordFree(m, pos, n) then n else FreeRun(m, pos, n);
      var add := if WordFree(m, pos, n) then Frames(WordStart(pos), WordStart(pos) + n) else Frames(pos, pos + d);
      MarkedOneRound(m, avail, total, pos, pf, d, m + add);
      FramesAppend(pos, pos + n, pos + pf);
      if d < n {
        FramesAppend(pos, pos + d, pos + n);
      } else {
        TakenIff(m + add, avail - n, total, pos + n, pf - n);
        LookedAtLater(m, pos, pf);
      }
    } else {
      MarksEnd(m, avail, total, pos, pf);
    }
  }

  lemma LookedAtLater(m: set<nat>, pos: nat, pf: nat)
    requires 0 < pf
    ensures var n := FirstRun(pos, pf);
            var word, run, rest := Frames(WordStart(pos), WordStart(pos) + n), Frames(pos, pos + n),
                                   Frames(pos + n, pos + pf);
            && word !! rest && run !! rest
            && LookedAt(m + word, pos + n, pf - n) == rest && LookedAt(m + run, pos + n, pf - n) == rest
            && (WordFree(m, pos, n) && !Misses(m, pos, pf) ==> m !! run)
  {
    var n, first := FirstRun(pos, pf), WordStart(pos);
    WordStartIs(pos);
    FramesApart(first, first + n, pos + n, pos + pf);
    FramesApart(pos, pos + n, pos + n, pos + pf);
    FramesAppend(pos + n, pos + n, pos + pf);
  }

  // ---------------------------------------------------------------- what clearing does

  /** Every marked frame of the word that holds pos is among the word's first n: the test of
      the fast path of pfmgr_clear_bmp, whose mask is not shifted either. */
  ghost predicate OnlyLow(m: set<nat>, pos: nat, n: nat) {
    m * Frames(WordStart(pos), WordStart(pos) + 64) <= Frames(WordStart(pos), WordStart(pos) + n)
  }

  /** When the frames asked for are all marked, a passed fast-path test means that they are the
      word's first n: the unshifted mask does no harm. */
  lemma OnlyLowMeansAligned(m: set<nat>, pos: nat, n: nat)
    requires 0 < n && pos % 64 + n <= 64 && Frames(pos, pos + n) <= m
    requires OnlyLow(m, pos, n)
    ensures pos % 64 == 0
  {
    var last := pos + n - 1;
    assert last in Frames(pos, pos + n);
    assert last in m * Frames(WordStart(pos), WordStart(pos) + 64);
  }

  lemma LowBitsOnly(words: seq<Word>, pos: nat, n: nat)
    requires pos / 64 < |words| && n <= 64
    ensures words[pos / 64] <= Run(0, n) <==> OnlyLow(Marked(words), pos, n)
  {
    hide Marked, WordStart;
    WordStartIs(pos);
    var w, first := pos / 64, WordStart(pos);
    if words[w] <= Run(0, n) {
      forall f | f in Marked(words) && f in Frames(first, first + 64) ensures f in Frames(first, first + n) {
        BitIsFrame(words, w, f - first);
      }
    } else {
      var i :| i in words[w] && i !in Run(0, n);
      BitIsFrame(words, w, i);
      assert first + i in Marked(words) * Frames(first, first + 64);
    }
  }

  /** What is marked when a request to free marked frames has got to pos. */
  ghost predicate Clearing(m0: set<nat>, start: nat, count: nat, pos: nat, m: set<nat>) {
    && start <= pos <= start + count
    && Frames(pos, start + count) <= m
    && m == m0 - Frames(start, pos)
  }

  lemma ClearingStarts(m0: set<nat>, start: nat, count: nat)
    requires Frames(start, start + count) <= m0
    ensures Clearing(m0, start, count, start, m0)
  {
  }

  lemma ClearingEnds(m0: set<nat>, start: nat, count: nat, pos: nat, m: set<nat>)
    requires Clearing(m0, start, count, pos, m)
    ensures Frames(pos, start + count) <= m && m == m0 - Frames(start, pos)
    ensures forall avail: nat :: Total(avail, m) >= avail + (start + count - pos)
  {
    FramesSize(pos, start + count);
    SubsetSize(m, Frames(pos, start + count));
  }

  lemma ClearingGoesOn(m0: set<nat>, start: nat, count: nat, pos: nat, n: nat, m: set<nat>)
    requires Clearing(m0, start, count, pos, m) && pos < start + count
    requires n == Min(64 - pos % 64, start + count - pos)
    ensures Frames(pos, pos + n) <= m
    ensures OnlyLow(m, pos, n) ==> Frames(WordStart(pos), WordStart(pos) + n) == Frames(pos, pos + n)
    ensures Clearing(m0, start, count, pos + n, m - Frames(pos, pos + n))
  {
    FramesAppend(pos, pos + n, start + count);
    FramesAppend(start, pos, pos + n);
    FramesApart(start, pos, pos + n, start + count);
    hide Frames, OnlyLow;
    if OnlyLow(m, pos, n) {
      OnlyLowMeansAligned(m, pos, n);
    }
  }

  /** No frame of any word that the request touches from pos on is marked. */
  ghost predicate Empty(m: set<nat>, pos: nat, end: nat) {
    m !! Frames(WordStart(pos), end + 63)
  }

  lemma EmptyGoesOn(m: set<nat>, pos: nat, end: nat, n: nat)
    requires Empty(m, pos, end) && pos < end && n == Min(64 - pos % 64, end - pos)
    ensures OnlyLow(m, pos, n) && m - Frames(WordStart(pos), WordStart(pos) + n) == m
    ensures pos + n < end ==> Empty(m, pos + n, end)
  {
  }

  /** Every round of a request to free pf frames from pos on whose fast-path test passes finds
      the word's first n frames marked. m and avail are what the rounds before have left. */
  ghost predicate Honest(m: set<nat>, avail: nat, total: nat, pos: nat, pf: nat)
    decreases pf
  {
    if pos >= total || avail >= total || pf == 0 then true
    else
      var n := Min(Min(64 - pos % 64, pf), total - avail);
      var word, run := Frames(WordStart(pos), WordStart(pos) + n), Frames(pos, pos + n);
      if OnlyLow(m, pos, n) then word <= m && Honest(m - word, avail + n, total, pos + n, pf - n)
      else run <= m ==> Honest(m - run, avail + n, total, pos + n, pf - n)
  }

  lemma {:induction false} MarkedRound(m: set<nat>, pos: nat, pf: nat, n: nat)
    requires Frames(pos, pos + pf) <= m && 0 < pf && n == Min(64 - pos % 64, pf)
    ensures pf <= |m| && |m - Frames(pos, pos + n)| == |m| - n
    ensures Frames(pos, pos + n) <= m && Frames(pos + n, pos + pf) <= m - Frames(pos, pos + n)
    ensures OnlyLow(m, pos, n) ==> Frames(WordStart(pos), WordStart(pos) + n) == Frames(pos, pos + n)
  {
    hide OnlyLow, WordStart;
    FramesSize(pos, pos + pf);
    SubsetSize(m, Frames(pos, pos + pf));
    ClearingStarts(m, pos, pf);
    ClearingGoesOn(m, pos, pf, pos, n, m);
    ClearingEnds(m, pos, pf, pos + n, m - Frames(pos, pos + n));
    FramesSize(pos, pos + n);
    SizeDrops(m, Frames(pos, pos + n));
  }

  /** A request for marked frames only, in a range whose count is right, is honest. */
  lemma {:induction false} MarkedIsHonest(m: set<nat>, avail: nat, total: nat, pos: nat, pf: nat)
    requires Frames(pos, pos + pf) <= m && pos + pf <= total && avail + |m| == total
    ensures Honest(m, avail, total, pos, pf)
    decreases pf
  {
    hide Frames, OnlyLow, WordStart;
    if 0 < pf {
      var n := Min(64 - pos % 64, pf);
      MarkedRound(m, pos, pf, n);
      MarkedIsHonest(m - Frames(pos, pos + n), avail + n, total, pos + n, pf - n);
    }
  }

  /** A request for a frame in a word without marks is not. */
  lemma EmptyWordIsNot(m: set<nat>, avail: nat, total: nat, pos: nat, pf: nat)
    requires pos < total && avail < total && 0 < pf
    requires m !! Frames(WordStart(pos), WordStart(pos) + 64)
    ensures !Honest(m, avail, total, pos, pf)
  {
    var n := Min(Min(64 - pos % 64, pf), total - avail);
    assert OnlyLow(m, pos, n);
    assert WordStart(pos) in Frames(WordStart(pos), WordStart(pos) + n);
  }

  lemma HonestEnds(m: set<nat>, avail: nat, total: nat, pos: nat, pf: nat)
    ensures pos >= total || avail >= total || pf == 0 ==> Honest(m, avail, total, pos, pf)
  {
  }

  lemma HonestRound(m: set<nat>, avail: nat, total: nat, pos: nat, pf: nat, done: nat, m1: set<nat>)
    requires pos < total && avail < total && 0 < pf
    requires var n := Min(Min(64 - pos % 64, pf), total - avail);
             var word := Frames(WordStart(pos), WordStart(pos) + n);
             && done <= n
             && if OnlyLow(m, pos, n) then done == n && m1 == m - word
                else
                  && m1 == m - Frames(pos, pos + done) && Frames(pos, pos + done) <= m
                  && (done < n ==> pos + done !in m)
    ensures var n := Min(Min(64 - pos % 64, pf), total - avail);
            var word := Frames(WordStart(pos), WordStart(pos) + n);
            Honest(m, avail, total, pos, pf) <==>
              && (OnlyLow(m, pos, n) ==> word <= m)
              && (done < n || Honest(m1, avail + n, total, pos + n, pf - n))
  {
    var n := Min(Min(64 - pos % 64, pf), total - avail);
    if done < n {
      FramesAppend(pos, pos + done, pos + n);
    }
  }

  // ---------------------------------------------------------------- what is left after clearing

  /** The marks, the count of free frames and the frames still to clear. */
  datatype Left = Left(m: set<nat>, avail: nat, pf: nat)

  /** How many of the n frames from pos on are marked before the first that is not. */
  function MarkedRun(m: set<nat>, pos: nat, n: nat): nat
    decreases n
  {
    if n == 0 || pos !in m then 0 else 1 + MarkedRun(m, pos + 1, n - 1)
  }

  lemma {:induction false} MarkedRunIs(m: set<nat>, pos: nat, n: nat)
    ensures var d := MarkedRun(m, pos, n);
            d <= n && Frames(pos, pos + d) <= m && (d < n ==> pos + d !in m)
    decreases n
  {
    if n > 0 && pos in m {
      MarkedRunIs(m, pos + 1, n - 1);
      var d := MarkedRun(m, pos + 1, n - 1);
      FramesAppend(pos, pos + 1, pos + 1 + d);
      OneFrame(pos);
    } else {
      FramesAppend(pos, pos, pos);
    }
  }

  lemma {:induction false} MarkedRunUnique(m: set<nat>, pos: nat, n: nat, d: nat)
    requires d <= n && Frames(pos, pos + d) <= m && (d < n ==> pos + d !in m)
    ensures MarkedRun(m, pos, n) == d
    decreases n
  {
    if d > 0 {
      FramesAppend(pos, pos + 1, pos + d);
      assert pos in Frames(pos, pos + d);
      MarkedRunUnique(m, pos + 1, n - 1, d - 1);
    }
  }

  /** What the rounds of pfmgr_clear_bmp leave, whatever is asked for: the fast path takes the
      first frames of the word, the slow path frame by frame up to the first unmarked one, where
      the call stops. */
  ghost function Cleared(m: set<nat>, avail: nat, total: nat, pos: nat, pf: nat): Left
    decreases pf
  {
    if pos >= total || avail >= total || pf == 0 then Left(m, avail, pf)
    else
      var n := Min(Min(64 - pos % 64, pf), total - avail);
      if OnlyLow(m, pos, n) then
        Cleared(m - Frames(WordStart(pos), WordStart(pos) + n), avail + n, total, pos + n, pf - n)
      else
        var d := MarkedRun(m, pos, n);
        var m' := m - Frames(pos, pos + d);
        if d < n then Left(m', avail + d, pf - d) else Cleared(m', avail + n, total, pos + n, pf - n)
  }

  /** One round, as the loop runs it. */
  lemma ClearedRound(m: set<nat>, avail: nat, total: nat, pos: nat, pf: nat, done: nat, m1: set<nat>)
    requires pos < total && avail < total && 0 < pf
    requires var n := Min(Min(64 - pos % 64, pf), total - avail);
             var word := Frames(WordStart(pos), WordStart(pos) + n);
             && done <= n
             && if OnlyLow(m, pos, n) then done == n && m1 == m - word
                else
                  && m1 == m - Frames(pos, pos + done) && Frames(pos, pos + done) <= m
                  && (done < n ==> pos + done !in m)
    ensures var n := Min(Min(64 - pos % 64, pf), total - avail);
            Cleared(m, avail, total, pos, pf) ==
              if done < n then Left(m1, avail + done, pf - done)
              else Cleared(m1, avail + n, total, pos + n, pf - n)
  {
    hide Frames, OnlyLow, WordStart, MarkedRun;
    var n := Min(Min(64 - pos % 64, pf), total - avail);
    if !OnlyLow(m, pos, n) {
      MarkedRunUnique(m, pos, n, done);
    }
  }

  lemma ClearedEnds(m: set<nat>, avail: nat, total: nat, pos: nat, pf: nat)
    requires pos >= total || avail >= total || pf == 0
    ensures Cleared(m, avail, total, pos, pf) == Left(m, avail, pf)
  {
  }

  /** Frames that are all marked, in a range whose count is right, are cleared and nothing else. */
  lemma {:induction false} MarkedIsCleared(m: set<nat>, avail: nat, total: nat, pos: nat, pf: nat)
    requires Frames(pos, pos + pf) <= m && pos + pf <= total && avail + |m| == total
    ensures Cleared(m, avail, total, pos, pf) == Left(m - Frames(pos, pos + pf), avail + pf, 0)
    decreases pf
  {
    hide Frames, OnlyLow, WordStart, Cleared;
    FramesAppend(pos, pos, pos);
    if 0 < pf {
      var n := Min(64 - pos % 64, pf);
      MarkedRound(m, pos, pf, n);
      FullRound(m, avail, total, pos, pf, n);
      MarkedIsCleared(m - Frames(pos, pos + n), avail + n, total, pos + n, pf - n);
      FramesAppend(pos, pos + n, pos + pf);
      MinusTwice(m, Frames(pos, pos + n), Frames(pos + n, pos + pf));
    } else {
      ClearedEnds(m, avail, total, pos, pf);
      assert m - {} == m;
    }
  }

  lemma MinusTwice(m: set<nat>, a: set<nat>, b: set<nat>)
    ensures (m - a) - b == m - (a + b)
  {
  }

  lemma FullRound(m: set<nat>, avail: nat, total: nat, pos: nat, pf: nat, n: nat)
    requires Frames(pos, pos + pf) <= m && pos + pf <= total && avail + |m| == total
    requires 0 < pf && n == Min(64 - pos % 64, pf)
    ensures Cleared(m, avail, total, pos, pf) ==
              Cleared(m - Frames(pos, pos + n), avail + n, total, pos + n, pf - n)
  {
    hide Frames, OnlyLow, WordStart, Cleared;
    MarkedRound(m, pos, pf, n);
    ClearedRound(m, avail, total, pos, pf, n, m - Frames(pos, pos + n));
  }

  /** Frames of words without marks are counted as freed once more. */
  lemma {:induction false} EmptyIsCounted(m: set<nat>, avail: nat, total: nat, pos: nat, pf: nat)
    requires Empty(m, pos, pos + pf) && pos + pf <= total && pf <= total - avail
    ensures Cleared(m, avail, total, pos, pf) == Left(m, avail + pf, 0)
    decreases pf
  {
    hide Frames, OnlyLow, WordStart, Empty, Cleared;
    if 0 < pf {
      var n := Min(64 - pos % 64, pf);
      EmptyGoesOn(m, pos, pos + pf, n);
      ClearedRound(m, avail, total, pos, pf, n, m);
      if n < pf {
        EmptyIsCounted(m, avail + n, total, pos + n, pf - n);
      } else {
        ClearedEnds(m, avail + n, total, pos + n, 0);
      }
    } else {
      ClearedEnds(m, avail, total, pos, pf);
    }
  }

  lemma NotInFrames(a: nat, b: nat, f: nat)
    requires f < a
    ensures f !in Frames(a, b)
  {
  }

  lemma WordStartGrows(pos: nat, n: nat)
    ensures WordStart(pos) <= WordStart(pos + n) && WordStart(pos) <= pos
  {
  }

  /** Clearing touches no frame before the word it starts in. */
  lemma {:induction false} ClearedAbove(m: set<nat>, avail: nat, total: nat, pos: nat, pf: nat, f: nat)
    requires f < WordStart(pos)
    ensures f in m <==> f in Cleared(m, avail, total, pos, pf).m
    decreases pf
  {
    hide OnlyLow, MarkedRun, Frames, WordStart;
    if pos < total && avail < total && 0 < pf {
      var n := Min(Min(64 - pos % 64, pf), total - avail);
      WordStartGrows(pos, n);
      NotInFrames(WordStart(pos), WordStart(pos) + n, f);
      MarkedRunIs(m, pos, n);
      var d := MarkedRun(m, pos, n);
      NotInFrames(pos, pos + d, f);
      if OnlyLow(m, pos, n) {
        ClearedAbove(m - Frames(WordStart(pos), WordStart(pos) + n), avail + n, total, pos + n, pf - n, f);
      } else if d == n {
        ClearedAbove(m - Frames(pos, pos + d), avail + n, total, pos + n, pf - n, f);
      }
    }
  }

  /** As many marks are added as were asked for, also when they are the wrong ones. */
  lemma MarkedForSize(m: set<nat>, pos: nat, pf: nat)
    requires m !! Frames(pos, pos + pf)
    ensures m !! MarkedFor(m, pos, pf) && |m + MarkedFor(m, pos, pf)| == |m| + pf
  {
    hide Frames, WordStart;
    var n, first := FirstRun(pos, pf), WordStart(pos);
    if Misses(m, pos, pf) {
      WordStartGrows(pos, 0);
      FramesAppend(pos, pos + n, pos + pf);
      FramesApart(first, first + n, pos + n, pos + pf);
      FramesSize(first, first + n);
      FramesSize(pos + n, pos + pf);
      SizeAdds(Frames(first, first + n), Frames(pos + n, pos + pf));
    } else {
      FramesSize(pos, pos + pf);
    }
    SizeAdds(m, MarkedFor(m, pos, pf));
  }

  /** After a miss: the first round of clearing takes its fast path exactly when the word was
      empty before marking, and then undoes what marking did there. */
  lemma MissThenRound(m: set<nat>, pos: nat, pf: nat)
    requires m !! Frames(pos, pos + pf) && Misses(m, pos, pf)
    ensures var m1, n := m + MarkedFor(m, pos, pf), FirstRun(pos, pf);
            && (OnlyLow(m1, pos, n) <==> m !! Frames(WordStart(pos), WordStart(pos) + 64))
            && m1 - Frames(WordStart(pos), WordStart(pos) + n) == m + Frames(pos + n, pos + pf)
            && m !! Frames(pos + n, pos + pf)
            && WordStart(pos) in m1 && WordStart(pos) !in m && WordStart(pos) < pos
            && (n < pf ==> WordStart(pos) < WordStart(pos + n))
  {
    var n, first := FirstRun(pos, pf), WordStart(pos);
    var m1 := m + MarkedFor(m, pos, pf);
    FramesAppend(pos, pos + n, pos + pf);
    assert first in Frames(first, first + n);
    if OnlyLow(m1, pos, n) {
      MeetEmpty(m, m1, Frames(first, first + 64), Frames(first, first + n));
    }
  }

  lemma MeetEmpty<T>(m: set<T>, m1: set<T>, a: set<T>, b: set<T>)
    requires m <= m1 && m1 * a <= b && m !! b
    ensures m !! a
  {
    assert m * a <= m1 * a;
    Disjoint(m, a);
    assert forall x :: x in m * a ==> x in m && x in b;
  }

  lemma MissedStays(m: set<nat>, avail: nat, total: nat, pos: nat, pf: nat)
    requires m !! Frames(pos, pos + pf) && Misses(m, pos, pf)
    requires pos + pf <= total && pf <= avail && avail + |m| == total
    requires !(m !! Frames(WordStart(pos), WordStart(pos) + 64))
    ensures WordStart(pos) !in m
    ensures WordStart(pos) in Cleared(m + MarkedFor(m, pos, pf), avail - pf, total, pos, pf).m
  {
    hide Frames, WordStart, OnlyLow, Misses, MarkedFor, MarkedRun;
    var m1, n := m + MarkedFor(m, pos, pf), FirstRun(pos, pf);
    MarkedForSize(m, pos, pf);
    MissThenRound(m, pos, pf);
    MarkedRunIs(m1, pos, n);
    var d := MarkedRun(m1, pos, n);
    NotInFrames(pos, pos + d, WordStart(pos));
    if d == n {
      if n < pf {
        ClearedAbove(m1 - Frames(pos, pos + n), avail - pf + n, total, pos + n, pf - n, WordStart(pos));
      } else {
        ClearedEnds(m1 - Frames(pos, pos + n), avail - pf + n, total, pos + n, 0);
      }
    }
  }

  lemma MissUndone(m: set<nat>, avail: nat, total: nat, pos: nat, pf: nat)
    requires m !! Frames(pos, pos + pf) && Misses(m, pos, pf)
    requires pos + pf <= total && pf <= avail && avail + |m| == total
    requires m !! Frames(WordStart(pos), WordStart(pos) + 64)
    ensures Cleared(m + MarkedFor(m, pos, pf), avail - pf, total, pos, pf) == Left(m, avail, 0)
  {
    hide Frames, WordStart, OnlyLow, Misses, MarkedFor, Cleared;
    var n := FirstRun(pos, pf);
    MarkedForSize(m, pos, pf);
    MissThenRound(m, pos, pf);
    var m2 := m + Frames(pos + n, pos + pf);
    ClearedRound(m + MarkedFor(m, pos, pf), avail - pf, total, pos, pf, n, m2);
    SizeAdds(m, Frames(pos + n, pos + pf));
    FramesSize(pos + n, pos + pf);
    MarkedIsCleared(m2, avail - pf + n, total, pos + n, pf - n);
    PlusMinus(m, Frames(pos + n, pos + pf));
  }

  lemma PlusMinus(m: set<nat>, a: set<nat>)
    requires m !! a
    ensures (m + a) - a == m
  {
  }

  /** Freeing the frames a request asked for, by pfmgr_clear_bmp as it is, brings the marks back
      to what they were exactly when marking did not miss or the word it missed in held no mark:
      then the same unshifted test makes clearing hit the wrong frames again. The count of free
      frames comes back with them. */
  lemma MarkThenClearIff(m: set<nat>, avail: nat, total: nat, pos: nat, pf: nat)
    requires m !! Frames(pos, pos + pf) && pos + pf <= total && pf <= avail && avail + |m| == total
    ensures var left := Cleared(m + MarkedFor(m, pos, pf), avail - pf, total, pos, pf);
            && (left.m == m <==> !Misses(m, pos, pf) || m !! Frames(WordStart(pos), WordStart(pos) + 64))
            && (left.m == m ==> left == Left(m, avail, 0))
  {
    hide Frames, WordStart, OnlyLow, Misses, Cleared;
    if !Misses(m, pos, pf) {
      var all := m + Frames(pos, pos + pf);
      SizeAdds(m, Frames(pos, pos + pf));
      FramesSize(pos, pos + pf);
      MarkedIsCleared(all, avail - pf, total, pos, pf);
      PlusMinus(m, Frames(pos, pos + pf));
    } else if m !! Frames(WordStart(pos), WordStart(pos) + 64) {
      MissUndone(m, avail, total, pos, pf);
    } else {
      MissedStays(m, avail, total, pos, pf);
    }
  }

  /** Return(0) or Return(-1); Halted is the endless loop after "FATAL". */
  datatype Outcome = Return(status: int) | Halted

  class FreeRange {
    const base: nat
    const total: nat
    var avail: nat
    const bmp: array<Word>

    constructor (base: nat, total: nat, words: nat)
      requires total <= 64 * words
      ensures Valid() && Frozen() == {} && avail == total && this.base == base && this.total == total
      ensures fresh(bmp) && bmp.Length == words
    {
      this.base, this.total, this.avail := base, total, total;
      bmp := new Word[words](_ => {});
    }

    ghost predicate Valid()
      reads this
    {
      avail <= total <= 64 * bmp.Length
    }

    /** Free frames by the count plus marked frames. */
    ghost function Sum(): nat
      reads this, bmp
    {
      Total(avail, Frozen())
    }

    /** The frames marked in the bitmap. */
    function Frozen(): set<nat>
      reads bmp
    {
      Marked(bmp[..])
    }

    /** The frame of the range that a physical address lies in. */
    function Pos(addr: nat): (f: nat)
      requires base <= addr
      ensures base + 0x1000 * f <= addr < base + 0x1000 * f + 0x1000
    {
      (addr - base) / 0x1000
    }

    /** The word that holds pos, |= the mask of n ones from bit ix on. */
    method Or(pos: nat, ix: nat, n: nat)
      requires pos / 64 < bmp.Length && ix + n <= 64
      modifies bmp
      ensures Frozen() == old(Frozen()) + Frames(WordStart(pos) + ix, WordStart(pos) + ix + n)
    {
      WordStartIs(pos);
      ShiftedRun(pos / 64, ix, n);
      MarkedOr(bmp[..], pos / 64, Run(ix, n));
      bmp[pos / 64] := bmp[pos / 64] + Run(ix, n);
    }

    /** The word that holds pos, &= ~the mask of n ones from bit ix on. */
    method AndNot(pos: nat, ix: nat, n: nat)
      requires pos / 64 < bmp.Length && ix + n <= 64
      modifies bmp
      ensures Frozen() == old(Frozen()) - Frames(WordStart(pos) + ix, WordStart(pos) + ix + n)
    {
      WordStartIs(pos);
      ShiftedRun(pos / 64, ix, n);
      MarkedAndNot(bmp[..], pos / 64, Run(ix, n));
      bmp[pos / 64] := bmp[pos / 64] - Run(ix, n);
    }

    /** The slow path of marking: one frame after the other. */
    method MarkOneByOne(pos0: nat, n: nat) returns (halted: bool, done: nat)
      requires Valid() && n <= avail && pos0 % 64 + n <= 64 && pos0 / 64 < bmp.Length
      modifies this`avail, bmp
      ensures Valid() && done <= n && Frozen() == old(Frozen()) + Frames(pos0, pos0 + done)
      ensures old(Frozen()) !! Frames(pos0, pos0 + done)
      ensures avail == old(avail) - done
      ensures if halted then done < n && pos0 + done in old(Frozen()) else done == n
    {
      hide Run, Frames, Marked, Shifted, WordStart;
      var w, ix := pos0 / 64, pos0 % 64;
      WordStartIs(pos0);
      done := 0;
      FramesAppend(pos0, pos0, pos0);
      while done < n
        invariant done <= n && Frozen() == old(Frozen()) + Frames(pos0, pos0 + done)
        invariant old(Frozen()) !! Frames(pos0, pos0 + done)
        invariant avail == old(avail) - done
      {
        BitIsFrame(bmp[..], w, ix + done);
        FramesAppend(pos0, pos0 + done, pos0 + done + 1);
        OneFrame(pos0 + done);
        if ix + done in bmp[w] {
          return true, done;
        }
        Or(pos0, ix + done, 1);
        avail := avail - 1;
        done := done + 1;
      }
      return false, done;
    }

    /** One round of pfmgr_mark_bmp: n frames of the word that holds pos. */
    method MarkRound(pos: nat, n: nat) returns (halted: bool, ghost done: nat)
      requires Valid() && n <= avail && pos % 64 + n <= 64 && pos / 64 < bmp.Length
      modifies this`avail, bmp
      ensures Valid() && old(Frozen()) <= Frozen()
      ensures Sum() == old(Sum())
      ensures done <= n && avail == old(avail) - done && (halted <==> done < n)
      ensures var word := Frames(WordStart(pos), WordStart(pos) + n);
              if WordFree(old(Frozen()), pos, n) then
                done == n && Frozen() == old(Frozen()) + word
              else
                && Frozen() == old(Frozen()) + Frames(pos, pos + done) && old(Frozen()) !! Frames(pos, pos + done)
                && (halted ==> pos + done in old(Frozen()))
    {
      hide Run, Frames, Marked, Shifted, WordStart, Total;
      LowBitsFree(bmp[..], pos, n);
      ghost var before := Frozen();
      Disjoint(bmp[pos / 64], Run(0, n));
      if bmp[pos / 64] * Run(0, n) == {} {
        Or(pos, 0, n);
        MarkKeepsTotal(old(avail), before, WordStart(pos), WordStart(pos) + n);
        avail := avail - n;
        return false, n;
      } else {
        var marked;
        halted, marked := MarkOneByOne(pos, n);
        done := marked;
        MarkKeepsTotal(old(avail), before, pos, pos + done);
      }
    }

    /** The frames that addr and count ask for, by their physical addresses. */
    predicate Asked(addr: nat, count: nat, f: nat) {
      addr <= base + 0x1000 * f < addr + 0x1000 * count
    }

    lemma AskedIs(addr: nat, count: nat)
      requires base <= addr && (addr - base) % 0x1000 == 0
      ensures forall f: nat :: f in Frames(Pos(addr), Pos(addr) + count) <==> Asked(addr, count, f)
    {
    }

    /** pfmgr_mark_bmp, for every request. Avail and the number of marked frames keep their sum. A
        request of free frames, as many as the count allows, marks MarkedFor of them up to the end
        of the last word, and its status says whether that was all; when it starts at a page and
        does not miss, these are the frames that lie in the range asked for. */
    method Mark(addr: nat, count: nat) returns (out: Outcome)
      requires Valid() && base <= addr
      modifies this`avail, bmp
      ensures Valid() && Sum() == old(Sum())
      ensures old(Frozen()) <= Frozen()
      ensures var left := MarksLeft(old(Frozen()), old(avail), total, Pos(addr), count);
              && Frozen() == left.m && avail == left.avail
              && out == if left.taken then Halted else Return(if left.pf > 0 then -1 else 0)
      ensures var pos := Pos(addr);
              var over := LeftOver(total, pos, count);
              old(Frozen()) !! Frames(pos, pos + count) && count <= old(avail) ==>
                && out == Return(if over > 0 then -1 else 0)
                && Frozen() == old(Frozen()) + MarkedFor(old(Frozen()), pos, count - over)
                && avail == old(avail) - (count - over)
      ensures var pos := Pos(addr);
              && old(Frozen()) !! Frames(pos, pos + count) && count <= old(avail) && pos + count <= total
              && (addr - base) % 0x1000 == 0 && !Misses(old(Frozen()), pos, count) ==>
                out == Return(0) && forall f: nat :: f in Frozen() <==> f in old(Frozen()) || Asked(addr, count, f)
    {
      hide Frames, WordStart, WordFree, MarkedFor, Misses, Frozen, MarksLeft, Total, Asked;
      var pos: nat, pf: nat := Pos(addr), count;
      ghost var m0, start := Frozen(), Pos(addr);
      ghost var left := MarksLeft(m0, avail, total, start, count);
      KnownMarks(m0, avail, total, start, count);
      if (addr - base) % 0x1000 == 0 {
        AskedIs(addr, count);
      }
      while pos < total && avail > 0 && pf > 0
        invariant Valid() && Sum() == old(Sum()) && m0 <= Frozen()
        invariant left == MarksLeft(Frozen(), avail, total, pos, pf)
      {
        var n := Min(Min(64 - pos % 64, pf), avail);
        ghost var m, av := Frozen(), avail;
        var halted;
        ghost var done;
        halted, done := MarkRound(pos, n);
        MarkedOneRound(m, av, total, pos, pf, done, Frozen());
        if halted {
          return Halted;
        }
        pos, pf := pos + n, pf - n;
      }
      MarksEnd(Frozen(), avail, total, pos, pf);
      return Return(if pf > 0 then -1 else 0);
    }

    /** The slow path of clearing; it stops at a frame that is not marked. */
    method ClearOneByOne(pos0: nat, n: nat) returns (done: nat)
      requires Valid() && n <= total - avail && pos0 % 64 + n <= 64 && pos0 / 64 < bmp.Length
      modifies this`avail, bmp
      ensures Valid() && done <= n && Frozen() == old(Frozen()) - Frames(pos0, pos0 + done)
      ensures Frames(pos0, pos0 + done) <= old(Frozen())
      ensures avail == old(avail) + done
      ensures done < n ==> pos0 + done !in old(Frozen())
    {
      hide Run, Frames, Marked, Shifted, WordStart;
      var w, ix := pos0 / 64, pos0 % 64;
      WordStartIs(pos0);
      done := 0;
      FramesAppend(pos0, pos0, pos0);
      while done < n
        invariant done <= n && Frozen() == old(Frozen()) - Frames(pos0, pos0 + done)
        invariant Frames(pos0, pos0 + done) <= old(Frozen())
        invariant avail == old(avail) + done
      {
        BitIsFrame(bmp[..], w, ix + done);
        FramesAppend(pos0, pos0 + done, pos0 + done + 1);
        OneFrame(pos0 + done);
        if ix + done !in bmp[w] {
          return done;
        }
        AndNot(pos0, ix + done, 1);
        avail := avail + 1;
        done := done + 1;
      }
    }

    /** One round of pfmgr_clear_bmp. The sum of free and marked frames never falls, and it is
        kept unless the fast path clears frames that were not marked. */
    method ClearRound(pos: nat, n: nat) returns (done: nat)
      requires Valid() && n <= total - avail && pos % 64 + n <= 64 && pos / 64 < bmp.Length
      modifies this`avail, bmp
      ensures Valid() && done <= n && avail == old(avail) + done
      ensures Frozen() <= old(Frozen())
      ensures var word := Frames(WordStart(pos), WordStart(pos) + n);
              if OnlyLow(old(Frozen()), pos, n) then
                && done == n && Frozen() == old(Frozen()) - word
                && Sum() >= old(Sum())
                && (Sum() == old(Sum()) <==> word <= old(Frozen()))
              else
                && Frozen() == old(Frozen()) - Frames(pos, pos + done)
                && Frames(pos, pos + done) <= old(Frozen())
                && (done < n ==> pos + done !in old(Frozen()))
                && Sum() == old(Sum())
    {
      hide Run, Frames, Marked, Shifted, WordStart, OnlyLow, Total;
      LowBitsOnly(bmp[..], pos, n);
      ghost var before := Frozen();
      LowPart(bmp[pos / 64], Run(0, n));
      if bmp[pos / 64] * Run(0, n) == bmp[pos / 64] {
        AndNot(pos, 0, n);
        ClearKeepsTotal(old(avail), before, WordStart(pos), WordStart(pos) + n);
        avail := avail + n;
        done := n;
      } else {
        done := ClearOneByOne(pos, n);
        ClearKeepsTotal(old(avail), before, pos, pos + done);
      }
    }

    /** pfmgr_clear_bmp, for every request. The free count never gets too small, and stays right
        exactly for honest requests. */
    method Clear(addr: nat, count: nat) returns (out: Outcome)
      requires Valid() && base <= addr
      modifies this`avail, bmp
      ensures Valid() && Frozen() <= old(Frozen())
      ensures var left := Cleared(old(Frozen()), old(avail), total, Pos(addr), count);
              && Frozen() == left.m && avail == left.avail
              && out == Return(if left.pf > 0 then -1 else 0)
      ensures Sum() >= old(Sum())
      ensures Sum() == old(Sum()) <==> Honest(old(Frozen()), old(avail), total, Pos(addr), count)
      ensures var pos := Pos(addr);
              Frames(pos, pos + count) <= old(Frozen()) && pos + count <= total
              && old(Sum()) == total ==>
                && out == Return(0)
                && Frozen() == old(Frozen()) - Frames(pos, pos + count)
                && avail == old(avail) + count && Sum() == total
      ensures var pos := Pos(addr);
              Empty(old(Frozen()), pos, pos + count) && pos + count <= total
              && count <= total - old(avail) ==>
                out == Return(0) && Frozen() == old(Frozen()) && avail == old(avail) + count
      ensures var pos := Pos(addr);
              && Frames(pos, pos + count) <= old(Frozen()) && pos + count <= total && old(Sum()) == total
              && (addr - base) % 0x1000 == 0 ==>
                forall f: nat :: f in Frozen() <==> f in old(Frozen()) && !Asked(addr, count, f)
    {
      hide Frames, WordStart, OnlyLow, Frozen, Empty, Honest, Cleared, Total, Asked;
      if (addr - base) % 0x1000 == 0 {
        AskedIs(addr, count);
      }
      var pos: nat, pf: nat, stop := Pos(addr), count, false;
      ghost var m0, start := Frozen(), Pos(addr);
      ghost var left := Cleared(m0, avail, total, start, count);
      KnownRequests(m0, avail, total, start, count);
      while !stop && pos < total && avail < total && pf > 0
        invariant Valid() && Frozen() <= m0
        invariant Sum() >= old(Sum())
        invariant Sum() == old(Sum()) && (stop || Honest(Frozen(), avail, total, pos, pf)) <==>
                  Honest(m0, old(avail), total, start, count)
        invariant left == if stop then Left(Frozen(), avail, pf) else Cleared(Frozen(), avail, total, pos, pf)
        decreases !stop, pf
      {
        var n := Min(Min(64 - pos % 64, pf), total - avail);
        ghost var m, av := Frozen(), avail;
        var done := ClearRound(pos, n);
        HonestRound(m, av, total, pos, pf, done, Frozen());
        ClearedRound(m, av, total, pos, pf, done, Frozen());
        stop := done < n;
        pos, pf := pos + done, pf - done;
      }
      if !stop {
        HonestEnds(Frozen(), avail, total, pos, pf);
        ClearedEnds(Frozen(), avail, total, pos, pf);
      }
      return Return(if pf > 0 then -1 else 0);
    }
  }

  /** Requests to mark frames that are free. */
  lemma KnownMarks(m: set<nat>, avail: nat, total: nat, pos: nat, pf: nat)
    ensures var over := LeftOver(total, pos, pf);
            m !! Frames(pos, pos + pf) && pf <= avail ==>
              && MarksLeft(m, avail, total, pos, pf)
                   == Marking(m + MarkedFor(m, pos, pf - over), avail - (pf - over), over, false)
              && (pos + pf <= total ==> over == 0)
              && (!Misses(m, pos, pf) ==> MarkedFor(m, pos, pf) == Frames(pos, pos + pf))
  {
    hide Frames, MarksLeft;
    if m !! Frames(pos, pos + pf) && pf <= avail {
      FreeIsMarked(m, avail, total, pos, pf);
    }
  }

  /** The two kinds of request with a simple answer: all frames marked, or none in their words. */
  lemma KnownRequests(m: set<nat>, avail: nat, total: nat, pos: nat, pf: nat)
    ensures Frames(pos, pos + pf) <= m && pos + pf <= total && Total(avail, m) == total ==>
              && Cleared(m, avail, total, pos, pf) == Left(m - Frames(pos, pos + pf), avail + pf, 0)
              && Honest(m, avail, total, pos, pf)
    ensures Empty(m, pos, pos + pf) && pos + pf <= total && pf <= total - avail ==>
              Cleared(m, avail, total, pos, pf) == Left(m, avail + pf, 0)
  {
    hide Frames, Empty, Cleared, Honest;
    if Frames(pos, pos + pf) <= m && pos + pf <= total && Total(avail, m) == total {
      MarkedIsCleared(m, avail, total, pos, pf);
      MarkedIsHonest(m, avail, total, pos, pf);
    }
    if Empty(m, pos, pos + pf) && pos + pf <= total && pf <= total - avail {
      EmptyIsCounted(m, avail, total, pos, pf);
    }
  }
}
