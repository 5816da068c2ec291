/** The timer queue (kernel/timer.c): timers wait in pend_q, move to active_q at the end of a tick,
    and from then on every tick advances their cursor until it reaches to_sleep. */
module Timers {
  import opened Sequences

  /** Where timer_increment carries. What is proved speaks of nanoseconds in figures. */
  const SECOND: nat := 1_000_000_000
  const U32: nat := 0x1_0000_0000

  type u32 = n: nat | n < 0x1_0000_0000

  datatype TimeSpec = TimeSpec(nanosec: u32, seconds: u32)

  predicate Normalised(t: TimeSpec) {
    t.nanosec < 1_000_000_000
  }

  /** In nanoseconds. */
  function Total(t: TimeSpec): nat {
    t.seconds * 1_000_000_000 + t.nanosec
  }

  /** timer_increment; seconds is a uint32_t, and so is the sum of two nanosecond fields before
      it is compared. */
  function Increment(cursor: TimeSpec, step: TimeSpec): TimeSpec {
    var nanosec := (step.nanosec + cursor.nanosec) % U32;
    if nanosec >= SECOND then
      TimeSpec(nanosec - SECOND, (cursor.seconds + 1 + step.seconds) % U32)
    else
      TimeSpec(nanosec, (cursor.seconds + step.seconds) % U32)
  }

  /** The seconds of the sum, with the carry, still fit their field. */
  predicate Fits(cursor: TimeSpec, step: TimeSpec) {
    Total(cursor) + Total(step) < 0x1_0000_0000 * 1_000_000_000
  }

  /** Increment keeps times normalised, and it is addition exactly while the seconds fit. */
  lemma IncrementAddsIff(cursor: TimeSpec, step: TimeSpec)
    requires Normalised(cursor) && Normalised(step)
    ensures Normalised(Increment(cursor, step))
    ensures Total(Increment(cursor, step)) == Total(cursor) + Total(step) <==> Fits(cursor, step)
  {
    var n, s := step.nanosec + cursor.nanosec, cursor.seconds + step.seconds;
    if n >= SECOND {
      Carried(s + 1, n - SECOND);
    } else {
      Carried(s, n);
    }
  }

  /** Seconds that wrap around at 2^32 keep the total exactly while they do not. */
  lemma Carried(s: nat, n: nat)
    requires n < 1_000_000_000 && s < 2 * U32
    ensures s % U32 * 1_000_000_000 + n == s * 1_000_000_000 + n <==> s < U32
    ensures s < U32 <==> s * 1_000_000_000 + n < 0x1_0000_0000 * 1_000_000_000
  {
  }

  /** timer_expired */
  predicate Expired(target: TimeSpec, current: TimeSpec) {
    if target.seconds <= current.seconds then
      target.seconds == current.seconds ==> target.nanosec <= current.nanosec
    else
      false
  }

  /** When a normalised cursor counts as having reached target: with nanoseconds of a second or
      more, which no cursor reaches, the next full second is what ends the wait. */
  function Due(target: TimeSpec): nat {
    if Normalised(target) then Total(target) else (target.seconds + 1) * 1_000_000_000
  }

  lemma ExpiredIsDue(target: TimeSpec, current: TimeSpec)
    requires Normalised(current)
    ensures Expired(target, current) <==> Due(target) <= Total(current)
  {
  }

  function Sum(s: seq<nat>): nat {
    if s == [] then 0 else Sum(s[..|s| - 1]) + s[|s| - 1]
  }

  lemma SumLast(s: seq<nat>, x: nat)
    ensures Sum(s + [x]) == Sum(s) + x
  {
    assert (s + [x])[..|s|] == s;
  }

  lemma SumNone()
    ensures Sum([]) == 0
  {
  }

  // ---------------------------------------------------------------- firings over a run of ticks

  /** The ticks from number k on at which a timer fires that has already seen acc nanoseconds. */
  function Firings(due: nat, periodic: bool, acc: nat, steps: seq<nat>, k: nat): seq<nat>
    decreases |steps| - k
  {
    if k >= |steps| then []
    else if acc + steps[k] < due then Firings(due, periodic, acc + steps[k], steps, k + 1)
    else [k] + if periodic then Firings(due, periodic, 0, steps, k + 1) else []
  }

  /** The time that ticks a to b - 1 take. */
  function Elapsed(steps: seq<nat>, a: nat, b: nat): nat
    requires b <= |steps|
    decreases b - a
  {
    if a >= b then 0 else steps[a] + Elapsed(steps, a + 1, b)
  }

  lemma ElapsedNext(steps: seq<nat>, k: nat)
    requires k < |steps|
    ensures Elapsed(steps, k, |steps|) == steps[k] + Elapsed(steps, k + 1, |steps|)
  {
  }

  /** Tick n is the first from tick a on at which acc and the time elapsed reach due. */
  ghost predicate FirstDue(due: nat, acc: nat, steps: seq<nat>, a: nat, n: nat) {
    && a <= n < |steps| && acc + Elapsed(steps, a, n + 1) >= due
    && forall j :: a < j <= n ==> acc + Elapsed(steps, a, j) < due
  }

  ghost predicate NeverDue(due: nat, acc: nat, steps: seq<nat>, a: nat) {
    forall j :: a < j <= |steps| ==> acc + Elapsed(steps, a, j) < due
  }

  /** The first firing of either kind of timer is at the first tick that reaches its due time. */
  lemma {:induction false} FirstFiring(due: nat, periodic: bool, acc: nat, steps: seq<nat>, k: nat)
    ensures var f := Firings(due, periodic, acc, steps, k);
            if f == [] then NeverDue(due, acc, steps, k)
            else
              && FirstDue(due, acc, steps, k, f[0])
              && f[1..] == if periodic then Firings(due, true, 0, steps, f[0] + 1) else []
    decreases |steps| - k
  {
    if k < |steps| && acc + steps[k] < due {
      FirstFiring(due, periodic, acc + steps[k], steps, k + 1);
      forall j | k < j <= |steps|
        ensures Elapsed(steps, k, j) == steps[k] + Elapsed(steps, k + 1, j)
        ensures j == k + 1 ==> Elapsed(steps, k, j) == steps[k]
      {
      }
    }
  }

  /** A one-shot timer fires once at most: at the first tick that reaches its due time, and not
      at all only when no tick does. */
  lemma OneShotFiresOnce(due: nat, acc: nat, steps: seq<nat>, k: nat)
    ensures var f := Firings(due, false, acc, steps, k);
            if f == [] then NeverDue(due, acc, steps, k) else f == [f[0]] && FirstDue(due, acc, steps, k, f[0])
  {
    FirstFiring(due, false, acc, steps, k);
    var f := Firings(due, false, acc, steps, k);
    if f != [] {
      assert f == [f[0]] + f[1..];
    }
  }

  /** A periodic timer fires likewise, each time counting from its last firing. */
  lemma {:induction false} PeriodicCountsAnew(due: nat, acc: nat, steps: seq<nat>, k: nat, i: nat)
    requires i < |Firings(due, true, acc, steps, k)|
    ensures var f := Firings(due, true, acc, steps, k);
            && (if i == 0 then FirstDue(due, acc, steps, k, f[0]) else FirstDue(due, 0, steps, f[i - 1] + 1, f[i]))
            && (i == |f| - 1 ==> NeverDue(due, 0, steps, f[i] + 1))
    decreases i
  {
    FirstFiring(due, true, acc, steps, k);
    var f := Firings(due, true, acc, steps, k);
    var g := Firings(due, true, 0, steps, f[0] + 1);
    assert f[1..] == g;
    if i == 0 {
      FirstFiring(due, true, 0, steps, f[0] + 1);
    } else {
      PeriodicCountsAnew(due, 0, steps, f[0] + 1, i - 1);
      assert f[i] == g[i - 1] && (i > 1 ==> f[i - 1] == g[i - 2]);
    }
  }

  /** struct timer. The callback is an entry in the log of the queue; of the flags,
      TIMER_PERIODIC and TIMER_PROCESSED matter. */
  class Timer {
    var toSleep: TimeSpec
    var cursor: TimeSpec
    var periodic: bool
    var processed: bool
    /** The ticks since it became active or, for a periodic timer, since it last fired. */
    ghost var since: seq<nat>

    constructor ()
      ensures (toSleep, cursor) == (TimeSpec(0, 0), TimeSpec(0, 0)) && !periodic && !processed && since == []
    {
      toSleep, cursor, periodic, processed, since := TimeSpec(0, 0), TimeSpec(0, 0), false, false, [];
    }

    /** Reaching to_sleep at this tick. */
    ghost predicate Reaches(step: TimeSpec)
      reads this
    {
      Sum(since) + Total(step) >= Due(toSleep)
    }

    /** Waiting: the cursor is the time since, and at no tick since was it due. */
    ghost predicate Waiting()
      reads this
    {
      && !processed && Normalised(cursor) && Total(cursor) == Sum(since)
      && forall n :: 0 < n <= |since| ==> Sum(since[..n]) < Due(toSleep)
    }

    /** timer_increment of the cursor and timer_expired. */
    method Advance(step: TimeSpec) returns (expired: bool)
      requires Waiting() && Normalised(step) && Fits(cursor, step)
      modifies this`cursor, this`since
      ensures expired == old(Reaches(step))
      ensures !expired ==> Waiting() && since == old(since) + [Total(step)]
      ensures Normalised(cursor)
    {
      IncrementAddsIff(cursor, step);
      cursor := Increment(cursor, step);
      ExpiredIsDue(toSleep, cursor);
      expired := Expired(toSleep, cursor);
      ghost var before := since;
      since := since + [Total(step)];
      assert since[..|before|] == before;
      forall n | 0 < n <= |since| && !expired ensures Sum(since[..n]) < Due(toSleep) {
        if n <= |before| {
          assert since[..n] == before[..n];
        } else {
          assert since[..n] == since;
        }
      }
    }

    /** What a tick does to an active timer, apart from the queue: when it expires a periodic one
        starts anew and a one-shot one is marked as processed. */
    method Serve(step: TimeSpec) returns (expired: bool)
      requires Waiting() && Normalised(step) && Fits(cursor, step)
      modifies this`cursor, this`since, this`processed
      ensures expired == old(Reaches(step))
      ensures if expired && !periodic then processed
              else Waiting() && since == if expired then [] else old(since) + [Total(step)]
    {
      expired := Advance(step);
      if expired {
        if periodic {
          cursor, since := TimeSpec(0, 0), [];
        } else {
          processed := true;
        }
      }
    }
  }

  /** The timers of a list that are not in the set, in order. */
  ghost function Without(s: seq<Timer>, out: set<Timer>): seq<Timer> {
    if s == [] then []
    else Without(s[..|s| - 1], out) + if s[|s| - 1] in out then [] else [s[|s| - 1]]
  }

  /** The timers of a list that are in the set, in order. */
  ghost function Only(s: seq<Timer>, those: set<Timer>): seq<Timer> {
    if s == [] then []
    else Only(s[..|s| - 1], those) + if s[|s| - 1] in those then [s[|s| - 1]] else []
  }

  lemma FilterNext(s: seq<Timer>, k: nat, out: set<Timer>)
    requires k < |s|
    ensures Without(s[..k + 1], out) == Without(s[..k], out) + if s[k] in out then [] else [s[k]]
    ensures Only(s[..k + 1], out) == Only(s[..k], out) + if s[k] in out then [s[k]] else []
  {
    assert s[..k + 1][..k] == s[..k];
  }

  /** linked_list_remove */
  function Remove(s: seq<Timer>, t: Timer): seq<Timer> {
    if s == [] then []
    else
      var n := |s| - 1;
      if s[n] == t then s[..n] else Remove(s[..n], t) + [s[n]]
  }

  lemma OnlyOnce(s: seq<Timer>, k: nat)
    requires AllDifferent(s) && k < |s|
    ensures s[k] !in s[k + 1..] && forall j :: 0 <= j < |s| && j != k ==> s[j] != s[k]
  {
  }

  /** The active queue when the first k of all have been served, and the walk's position in it. */
  ghost function Queue(all: seq<Timer>, k: nat, gone: set<Timer>): seq<Timer>
    requires k <= |all|
  {
    Without(all[..k], gone) + all[k..]
  }

  ghost function Position(all: seq<Timer>, k: nat, gone: set<Timer>): nat
    requires k <= |all|
  {
    |Without(all[..k], gone)|
  }

  ghost function Log(all: seq<Timer>, k: nat, fires: set<Timer>): seq<Timer>
    requires k <= |all|
  {
    Only(all[..k], fires)
  }

  lemma QueueStart(all: seq<Timer>, gone: set<Timer>, fires: set<Timer>)
    ensures Queue(all, 0, gone) == all && Position(all, 0, gone) == 0 && Log(all, 0, fires) == []
  {
    assert all[..0] == [] && all[0..] == all;
  }

  /** Going on to the next timer, which stays or leaves. */
  lemma QueueStep(all: seq<Timer>, k: nat, gone: set<Timer>, fires: set<Timer>)
    requires AllDifferent(all) && k < |all|
    ensures var q, i := Queue(all, k, gone), Position(all, k, gone);
            && i < |q| && q[i] == all[k]
            && Queue(all, k + 1, gone) == (if all[k] in gone then Remove(q, all[k]) else q)
            && Position(all, k + 1, gone) == (if all[k] in gone then i else i + 1)
    ensures Log(all, k + 1, fires) == Log(all, k, fires) + if all[k] in fires then [all[k]] else []
  {
    var before := Without(all[..k], gone);
    assert all[k..] == [all[k]] + all[k + 1..];
    FilterNext(all, k, gone);
    FilterNext(all, k, fires);
    OnlyOnce(all, k);
    RemoveMiddle(before, all[k], all[k + 1..]);
    assert Queue(all, k, gone) == before + [all[k]] + all[k + 1..];
  }

  lemma QueueMore(all: seq<Timer>, k: nat, gone: set<Timer>)
    requires k <= |all| && Position(all, k, gone) < |Queue(all, k, gone)|
    ensures k < |all|
  {
  }

  lemma QueueEnd(all: seq<Timer>, k: nat, gone: set<Timer>, fires: set<Timer>)
    requires k <= |all| && Position(all, k, gone) >= |Queue(all, k, gone)|
    ensures k == |all| && Queue(all, k, gone) == Without(all, gone) && Log(all, k, fires) == Only(all, fires)
  {
    assert all[..|all|] == all && all[|all|..] == [];
  }

  lemma {:induction false} WithoutNone(s: seq<Timer>, out: set<Timer>)
    requires forall t :: t in s ==> t !in out
    ensures Without(s, out) == s
  {
    if s != [] {
      WithoutNone(s[..|s| - 1], out);
    }
  }

  lemma {:induction false} RemoveIsWithout(s: seq<Timer>, t: Timer)
    requires AllDifferent(s)
    ensures Remove(s, t) == Without(s, {t})
  {
    if s != [] {
      var n := |s| - 1;
      if s[n] == t {
        WithoutNone(s[..n], {t});
      } else {
        RemoveIsWithout(s[..n], t);
      }
    }
  }

  lemma AllDifferentSwap(s: seq<Timer>, t: seq<Timer>)
    requires AllDifferent(s + t)
    ensures AllDifferent(t + s) && AllDifferent(s) && AllDifferent(t)
    ensures forall x :: x in s ==> x !in t
  {
    var st, ts := s + t, t + s;
    forall i, j | 0 <= i < j < |ts| ensures ts[i] != ts[j] {
      var a, b := if i < |t| then i + |s| else i - |t|, if j < |t| then j + |s| else j - |t|;
      assert ts[i] == st[a] && ts[j] == st[b] && a != b;
    }
    forall i, j | 0 <= i < |s| && 0 <= j < |t| ensures s[i] != t[j] {
      assert st[i] == s[i] && st[j + |s|] == t[j];
    }
    forall i, j | 0 <= i < j < |t| ensures t[i] != t[j] {
      assert st[i + |s|] == t[i] && st[j + |s|] == t[j];
    }
    forall i, j | 0 <= i < j < |s| ensures s[i] != s[j] {
      assert st[i] == s[i] && st[j] == s[j];
    }
  }

  lemma {:induction false} WithoutMembers(s: seq<Timer>, out: set<Timer>)
    ensures forall x :: x in Without(s, out) <==> x in s && x !in out
  {
    if s != [] {
      WithoutMembers(s[..|s| - 1], out);
    }
  }

  lemma {:induction false} WithoutAt(s: seq<Timer>, out: set<Timer>, i: nat)
    requires i < |Without(s, out)|
    ensures Without(s, out)[i] in s && Without(s, out)[i] !in out
  {
    if i < |Without(s[..|s| - 1], out)| {
      WithoutAt(s[..|s| - 1], out, i);
    }
  }

  lemma DropKeeps(s: seq<Timer>, x: Timer, t: seq<Timer>)
    requires AllDifferent(s + [x] + t)
    ensures AllDifferent(s + t)
  {
    var all := s + [x] + t;
    forall i, j | 0 <= i < j < |s + t| ensures (s + t)[i] != (s + t)[j] {
      assert (s + t)[i] == all[if i < |s| then i else i + 1];
      assert (s + t)[j] == all[if j < |s| then j else j + 1];
    }
  }

  lemma {:induction false} WithoutKeeps(s: seq<Timer>, t: seq<Timer>, out: set<Timer>)
    requires AllDifferent(s + t)
    ensures AllDifferent(Without(s, out) + t)
  {
    hide AllDifferent;
    if s == [] {
      assert Without(s, out) + t == s + t;
    } else {
      var n := |s| - 1;
      var w := Without(s[..n], out);
      assert s + t == s[..n] + ([s[n]] + t);
      WithoutKeeps(s[..n], [s[n]] + t, out);
      assert w + ([s[n]] + t) == w + [s[n]] + t;
      if s[n] in out {
        DropKeeps(w, s[n], t);
        assert Without(s, out) == w;
      } else {
        assert Without(s, out) == w + [s[n]];
      }
    }
  }

  lemma {:induction false} RemoveMiddle(a: seq<Timer>, t: Timer, b: seq<Timer>)
    requires t !in b
    ensures Remove(a + [t] + b, t) == a + b
    decreases |b|
  {
    var s, n := a + [t] + b, |b| - 1;
    if b == [] {
      assert s[..|s| - 1] == a;
    } else {
      RemoveMiddle(a, t, b[..n]);
      assert s[..|s| - 1] == a + [t] + b[..n];
      assert a + b == (a + b[..n]) + [b[n]];
    }
  }

  lemma TotalsAre(steps: seq<TimeSpec>)
    ensures |Totals(steps)| == |steps| && forall k :: 0 <= k < |steps| ==> Totals(steps)[k] == Total(steps[k])
  {
  }

  lemma FitsWithin(cursor: TimeSpec, step: TimeSpec)
    requires Total(cursor) + Total(step) < U32 * SECOND
    ensures Fits(cursor, step)
  {
  }

  lemma {:induction false} OnlyCount(s: seq<Timer>, those: set<Timer>, t: Timer)
    requires AllDifferent(s)
    ensures multiset(Only(s, those))[t] == if t in s && t in those then 1 else 0
  {
    if s != [] {
      var n := |s| - 1;
      assert s == s[..n] + [s[n]];
      OnlyCount(s[..n], those, t);
    }
  }

  /** Not reached yet in this tick. */
  twostate predicate Untouched(t: Timer)
    reads t
  {
    unchanged(t)
  }

  /** Reached in this tick. */
  twostate predicate Served(t: Timer, step: TimeSpec, fires: set<Timer>, gone: set<Timer>)
    reads t
  {
    && t.toSleep == old(t.toSleep) && t.periodic == old(t.periodic)
    && if t in gone then t.processed
       else t.Waiting() && t.since == if t in fires then [] else old(t.since) + [Total(step)]
  }

  ghost function Totals(steps: seq<TimeSpec>): seq<nat> {
    seq(|steps|, i requires 0 <= i < |steps| => Total(steps[i]))
  }

  ghost function Flat(log: seq<seq<Timer>>): seq<Timer> {
    if log == [] then [] else Flat(log[..|log| - 1]) + log[|log| - 1]
  }

  /** struct timer_device */
  class TimerQueue {
    var active: seq<Timer>
    var pend: seq<Timer>
    var elapsed: TimeSpec
    /** The callbacks made, in order. */
    ghost var fired: seq<Timer>

    constructor ()
      ensures Valid() && active == [] && pend == [] && fired == [] && elapsed == TimeSpec(0, 0)
    {
      active, pend, elapsed, fired := [], [], TimeSpec(0, 0), [];
    }

    /** Every timer stands in the queues once, and waits; a pending one has seen no tick. */
    ghost predicate Valid()
      reads this, active, pend
    {
      && AllDifferent(active + pend) && Normalised(elapsed)
      && (forall t :: t in active ==> t.Waiting())
      && (forall t :: t in pend ==> t.Waiting() && t.since == [])
    }

    /** timer_enqeue_static, for a timer that is in no queue. */
    method Enqueue(ts: TimeSpec, periodic: bool, tm: Timer)
      requires Valid() && tm !in active && tm !in pend
      modifies this`pend, tm
      ensures Valid() && pend == old(pend) + [tm]
      ensures tm.toSleep == ts && tm.periodic == periodic && tm.since == []
    {
      tm.toSleep, tm.cursor, tm.periodic, tm.processed := ts, TimeSpec(0, 0), periodic, false;
      tm.since := [];
      ghost var before := active + pend;
      pend := pend + [tm];
      assert active + pend == before + [tm];
    }

    /** timer_dequeue: takes the timer off the queue it is in; a processed one is in none. */
    method Dequeue(tm: Timer) returns (status: int)
      requires Valid()
      modifies this`active, this`pend
      ensures Valid()
      ensures status == if tm.processed || tm in old(active) || tm in old(pend) then 0 else -1
      ensures active == Without(old(active), {tm}) && pend == Without(old(pend), {tm})
    {
      hide AllDifferent, Without, Remove;
      AllDifferentSwap(active, pend);
      RemoveIsWithout(active, tm);
      RemoveIsWithout(pend, tm);
      WithoutMembers(active, {tm});
      WithoutMembers(pend, {tm});
      WithoutKeeps(active, pend, {tm});
      WithoutKeeps(pend, active, {tm});
      if tm !in active {
        WithoutNone(active, {tm});
      }
      if tm !in pend {
        WithoutNone(pend, {tm});
      }
      AllDifferentSwap(Without(pend, {tm}), active);
      if tm.processed {
        return 0;
      }
      if tm in active {
        active := Remove(active, tm);
        return 0;
      }
      if tm in pend {
        pend := Remove(pend, tm);
        return 0;
      }
      return -1;
    }

    /** The walk over the active timers. */
    method ServeActive(step: TimeSpec, ghost fires: set<Timer>, ghost gone: set<Timer>)
      requires AllDifferent(active) && Normalised(step)
      requires forall t :: t in active ==> t.Waiting() && Fits(t.cursor, step)
      requires forall t :: t in active ==> (t in fires <==> t.Reaches(step))
      requires forall t :: t in active ==> (t in gone <==> t.Reaches(step) && !t.periodic)
      modifies this`active, this`fired, active
      ensures active == Without(old(active), gone) && fired == old(fired) + Only(old(active), fires)
      ensures forall t :: t in old(active) ==> Served(t, step, fires, gone)
    {
      hide AllDifferent, Without, Only, Remove, Queue, Position, Log, Sum;
      ghost var all := active;
      QueueStart(all, gone, fires);
      ghost var k: nat := 0;
      var i := 0;
      while i < |active|
        invariant k <= |all| && i == Position(all, k, gone) && active == Queue(all, k, gone)
        invariant fired == old(fired) + Log(all, k, fires)
        invariant forall j :: k <= j < |all| ==> Untouched(all[j])
        invariant forall j :: 0 <= j < k ==> Served(all[j], step, fires, gone)
        decreases |all| - k
      {
        QueueMore(all, k, gone);
        QueueStep(all, k, gone, fires);
        OnlyOnce(all, k);
        var t := active[i];
        assert Untouched(t) && t.Waiting();
        var expired := t.Serve(step);
        assert (expired <==> t in fires) && (expired && !t.periodic <==> t in gone);
        if expired {
          fired := fired + [t];
        }
        if expired && !t.periodic {
          active := Remove(active, t);
        } else {
          i := i + 1;
        }
        k := k + 1;
      }
      QueueEnd(all, k, gone, fires);
    }

    /** What a tick does: exactly the active timers that reach to_sleep at it fire, in queue order;
        a periodic one starts anew and a one-shot one leaves the queue for good; pending timers
        become active and have seen no tick yet. */
    twostate predicate Ticked(step: TimeSpec)
      reads *
    {
      var fires := old(set t | t in active && t.Reaches(step));
      var gone := old(set t | t in active && t.Reaches(step) && !t.periodic);
      && elapsed == Increment(old(elapsed), step)
      && pend == [] && active == Without(old(active), gone) + old(pend)
      && fired == old(fired) + Only(old(active), fires)
      && (forall t :: t in gone ==> t.processed)
      && (forall t :: t in old(active) ==> t.toSleep == old(t.toSleep) && t.periodic == old(t.periodic))
      && forall t :: t in old(active) && t !in gone ==>
           t.since == if t in fires then [] else old(t.since) + [Total(step)]
    }

    /** timer_queue_callback */
    method Tick(step: TimeSpec)
      requires Valid() && Normalised(step) && forall t :: t in active ==> Fits(t.cursor, step)
      modifies this, active
      ensures Valid() && Ticked(step)
    {
      hide AllDifferent, Without, Only, Remove, Queue, Position, Log, Sum;
      ghost var all := active;
      ghost var fires := set t | t in active && t.Reaches(step);
      ghost var gone := set t | t in active && t.Reaches(step) && !t.periodic;
      elapsed := Increment(elapsed, step);
      IncrementAddsIff(old(elapsed), step);
      AllDifferentSwap(active, pend);
      ServeActive(step, fires, gone);
      WithoutKeeps(all, pend, gone);
      WithoutMembers(all, gone);
      active := active + pend;
      pend := [];
      assert active + pend == Without(all, gone) + old(pend);
    }

    /** A timer's part of the ticks still to come, the next of which is number k. */
    ghost function ToCome(t: Timer, steps: seq<nat>, k: nat): seq<nat>
      reads this, t
    {
      if t in active then Firings(Due(t.toSleep), t.periodic, Sum(t.since), steps, k)
      else if t in pend then Firings(Due(t.toSleep), t.periodic, 0, steps, k + 1)
      else []
    }

    /** How what is to come changes with one tick. */
    lemma StepOfComing(t: Timer, steps: seq<nat>, k: nat)
      requires k < |steps|
      ensures ToCome(t, steps, k) ==
                if t in active then
                  if Sum(t.since) + steps[k] < Due(t.toSleep) then
                    Firings(Due(t.toSleep), t.periodic, Sum(t.since) + steps[k], steps, k + 1)
                  else
                    [k] + if t.periodic then Firings(Due(t.toSleep), t.periodic, 0, steps, k + 1) else []
                else if t in pend then Firings(Due(t.toSleep), t.periodic, 0, steps, k + 1)
                else []
    {
    }

    lemma ComesNext(t: Timer, steps: seq<nat>, k: nat)
      ensures t in active ==> ToCome(t, steps, k) == Firings(Due(t.toSleep), t.periodic, Sum(t.since), steps, k)
      ensures t !in active && t !in pend ==> ToCome(t, steps, k) == []
    {
    }

    lemma NothingToCome(t: Timer, steps: seq<nat>, k: nat)
      requires k >= |steps|
      ensures ToCome(t, steps, k) == []
    {
    }

    /** A tick that the seconds of all timers have room for leaves room for those after it. */
    method TickWithin(step: TimeSpec, ghost steps: seq<nat>, ghost k: nat)
      requires Valid() && Normalised(step) && k < |steps| && steps[k] == Total(step)
      requires forall u :: u in active || u in pend ==> Sum(u.since) + Elapsed(steps, k, |steps|) < U32 * SECOND
      modifies this, active
      ensures Valid() && Ticked(step)
      ensures forall i :: 0 <= i < |active| ==> active[i] in old(active) || active[i] in old(pend)
      ensures forall u :: u in active || u in pend ==> Sum(u.since) + Elapsed(steps, k + 1, |steps|) < U32 * SECOND
    {
      hide AllDifferent, Without, Only, Sum, Elapsed, Due, Total;
      ghost var act, pnd := active, pend;
      ghost var gone := set u | u in active && u.Reaches(step) && !u.periodic;
      ElapsedNext(steps, k);
      SumNone();
      forall u | u in active ensures Fits(u.cursor, step) {
        FitsWithin(u.cursor, step);
      }
      AllDifferentSwap(active, pend);
      Tick(step);
      assert gone == old(set u | u in active && u.Reaches(step) && !u.periodic);
      ghost var stay := Without(act, gone);
      forall i | 0 <= i < |active|
        ensures active[i] in act || active[i] in pnd
        ensures Sum(active[i].since) + Elapsed(steps, k + 1, |steps|) < U32 * SECOND
      {
        if i < |stay| {
          WithoutAt(act, gone, i);
          var j :| 0 <= j < |act| && act[j] == active[i];
          SumLast(old(act[j].since), Total(step));
        } else {
          assert active[i] == pnd[i - |stay|];
        }
      }
    }

    /** One tick, seen from timer t. */
    method TickOnce(step: TimeSpec, ghost steps: seq<nat>, ghost k: nat, ghost t: Timer)
      returns (ghost calls: seq<Timer>)
      requires Valid() && Normalised(step) && k < |steps| && steps[k] == Total(step)
      requires forall u :: u in active || u in pend ==> Sum(u.since) + Elapsed(steps, k, |steps|) < U32 * SECOND
      modifies this, active
      ensures Valid() && pend == [] && elapsed == Increment(old(elapsed), step)
      ensures forall i :: 0 <= i < |active| ==> active[i] in old(active) || active[i] in old(pend)
      ensures forall u :: u in active || u in pend ==> Sum(u.since) + Elapsed(steps, k + 1, |steps|) < U32 * SECOND
      ensures fired == old(fired) + calls
      ensures multiset(calls)[t] == if old(t in active && t.Reaches(step)) then 1 else 0
      ensures old(ToCome(t, steps, k))
           == (if old(t in active && t.Reaches(step)) then [k] else []) + ToCome(t, steps, k + 1)
    {
      hide AllDifferent, Without, Only, Firings, Sum, Elapsed, Due, Total, ToCome;
      ghost var fires := set u | u in active && u.Reaches(step);
      ghost var gone := set u | u in active && u.Reaches(step) && !u.periodic;
      SumNone();
      AllDifferentSwap(active, pend);
      OnlyCount(active, fires, t);
      StepOfComing(t, steps, k);
      WithoutMembers(active, gone);
      calls := Only(active, fires);
      TickWithin(step, steps, k);
      assert gone == old(set u | u in active && u.Reaches(step) && !u.periodic);
      assert fires == old(set u | u in active && u.Reaches(step));
      if old(t in active) && t !in fires {
        SumLast(old(t.since), Total(step));
      }
      ComesNext(t, steps, k + 1);
    }

    /** A tick adds its time to the time passed, while the seconds fit. */
    lemma ElapsedAdds(before: TimeSpec, step: TimeSpec, steps: seq<nat>, k: nat, start: nat)
      requires k < |steps| && Normalised(before) && Normalised(step) && steps[k] == Total(step)
      requires Total(before) + Elapsed(steps, k, |steps|) == start < U32 * SECOND
      ensures Total(Increment(before, step)) + Elapsed(steps, k + 1, |steps|) == start
    {
      ElapsedNext(steps, k);
      IncrementAddsIff(before, step);
    }

    /** The ticks that the timer driver delivers, one after the other. Tick number k makes the
        callbacks log[k]; at are the ticks that fire timer t, once each: for a timer that is
        active at the start from tick 0 on, for a pending one from tick 1 on. */
    method RunTicks(steps: seq<TimeSpec>, ghost t: Timer) returns (ghost log: seq<seq<Timer>>, ghost at: seq<nat>)
      requires Valid() && forall k :: 0 <= k < |steps| ==> Normalised(steps[k])
      requires forall u :: u in active || u in pend ==>
                 Sum(u.since) + Elapsed(Totals(steps), 0, |steps|) < U32 * SECOND
      modifies this, active, pend
      ensures Valid()
      ensures |log| == |steps| && fired == old(fired) + Flat(log)
      ensures at == old(ToCome(t, Totals(steps), 0))
      ensures forall k :: 0 <= k < |log| ==> multiset(log[k])[t] == if k in at then 1 else 0
      ensures var passed := Total(old(elapsed)) + Elapsed(Totals(steps), 0, |steps|);
              passed < U32 * SECOND ==> Total(elapsed) == passed
    {
      hide Valid, Sum, Elapsed, Totals, ToCome, Total, Increment;
      log, at := [], [];
      ghost var ns := Totals(steps);
      TotalsAre(steps);
      ghost var passed := Total(elapsed) + Elapsed(ns, 0, |steps|);
      var k := 0;
      while k < |steps|
        invariant 0 <= k <= |steps| && |log| == k && Valid() && fired == old(fired) + Flat(log)
        invariant forall i :: 0 <= i < |active| ==> active[i] in old(active) || active[i] in old(pend)
        invariant forall i :: 0 <= i < |pend| ==> pend[i] in old(active) || pend[i] in old(pend)
        invariant forall u :: u in active || u in pend ==> Sum(u.since) + Elapsed(ns, k, |steps|) < U32 * SECOND
        invariant old(ToCome(t, ns, 0)) == at + ToCome(t, ns, k)
        invariant forall j :: 0 <= j < k ==> multiset(log[j])[t] == if j in at then 1 else 0
        invariant forall j :: j in at ==> j < k
        invariant passed < U32 * SECOND ==> Total(elapsed) + Elapsed(ns, k, |steps|) == passed
      {
        ghost var before := elapsed;
        ElapsedIsNormal();
        ghost var fires := t in active && t.Reaches(steps[k]);
        ghost var calls := TickOnce(steps[k], ns, k, t);
        if passed < U32 * SECOND {
          ElapsedAdds(before, steps[k], ns, k, passed);
        }
        log := log + [calls];
        at := at + if fires then [k] else [];
        k := k + 1;
      }
      NothingToCome(t, ns, k);
      ElapsedNone(ns);
    }

    lemma ElapsedIsNormal()
      requires Valid()
      ensures Normalised(elapsed)
    {
    }

    lemma ElapsedNone(steps: seq<nat>)
      ensures Elapsed(steps, |steps|, |steps|) == 0
    {
    }
  }
}
