/** The FIFO, non-recursive mutex (kernel/mutex.c) as an interleaved step system. Each stretch
    that runs with the internal spinlock held is one atomic step; threads interleave freely
    between steps, and a sleeping thread may resume at any moment, whether it was woken, its
    timeout fired, both at once, or neither. */
module Mutexes {
  import opened Sequences

  type Thread = nat

  datatype Owner = Nobody | Held(thread: Thread)

  /** The argument of mtx_acquire: NO_WAIT, a number of milliseconds, or WAIT_FOREVER. */
  datatype Wait = NoWait | Timed | Forever

  /** asleep: the threads between queueing and resuming, with their `looped` flag. holders: the
      threads for which a call of mtx_acquire has returned 0 and no mtx_release since.
      since: when each queued thread was queued, by the step counter clock. */
  datatype State = State(owner: Owner, pendq: seq<Thread>, asleep: map<Thread, bool>,
                         holders: set<Thread>, since: map<Thread, nat>, clock: nat)

  const INIT := State(Nobody, [], map[], {}, map[], 0)

  datatype Action = Acquire(t: Thread, wait: Wait) | Resume(t: Thread) | Release(t: Thread)

  /** What the step does to its caller: Acquired and GaveUp are mtx_acquire's 0 and -1, Queued means
      that it sleeps; Passed and Freed are mtx_release's 0, with or without a new owner. */
  datatype Event =
    | Acquired | GaveUp | Queued
    | Passed(to: Thread) | Freed | NotOwner

  function Position(q: seq<Thread>, t: Thread): (i: nat)
    ensures i <= |q|
    ensures i < |q| ==> q[i] == t
    ensures forall j :: 0 <= j < i ==> q[j] != t
    ensures t in q <==> i < |q|
  {
    if q == [] || q[0] == t then 0 else 1 + Position(q[1..], t)
  }

  /** linked_list_remove of the thread's node. */
  function Without(q: seq<Thread>, t: Thread): seq<Thread> {
    var i := Position(q, t);
    if i < |q| then RemoveAt(q, i) else q
  }

  predicate Enabled(s: State, a: Action) {
    if a.Resume? then a.t in s.asleep else a.t !in s.asleep
  }

  /** One round of the retry loop, the thread not being queued: the two exchanges on owner, the
      `looped` test, and queueing at the tail. */
  function Round(s: State, t: Thread, looped: bool, wait: Wait): (State, Event) {
    if s.owner == Nobody || s.owner == Held(t) then
      (s.(owner := Held(t), holders := s.holders + {t}), Acquired)
    else if looped || wait == NoWait then (s, GaveUp)
    else
      (s.(pendq := s.pendq + [t], asleep := s.asleep[t := wait != Forever],
          since := s.since[t := s.clock], clock := s.clock + 1), Queued)
  }

  function Step(s: State, a: Action): (State, Event) {
    match a
    case Acquire(t, wait) => Round(s, t, false, wait)
    case Resume(t) =>
      var looped := t in s.asleep && s.asleep[t];
      Round(Dequeued(s, t), t, looped, Forever)
    case Release(t) =>
      if s.owner != Held(t) then (s, NotOwner)
      else if s.pendq == [] then (s.(owner := Nobody, holders := s.holders - {t}), Freed)
      else (s.(owner := Held(s.pendq[0]), holders := s.holders - {t}), Passed(s.pendq[0]))
  }

  // ---------------------------------------------------------------- the invariant

  /** Exactly the sleeping threads are queued, in the order in which they were queued. */
  ghost predicate QueueOk(s: State) {
    && AllDifferent(s.pendq)
    && (forall t :: t in s.pendq <==> t in s.asleep)
    && Stamped(s.pendq, s.since)
    && (forall t :: t in s.pendq ==> s.since[t] < s.clock)
  }

  /** Nobody waits for a free mutex; the owner either holds it or heads the queue, about to. */
  ghost predicate Inv(s: State) {
    && QueueOk(s)
    && match s.owner
       case Nobody => s.pendq == [] && s.holders == {}
       case Held(t) => if t in s.pendq then s.pendq[0] == t && s.holders == {} else s.holders == {t}
  }

  /** In between, while the resuming thread t has left the queue but not looked at the owner. */
  ghost predicate Resuming(s: State, t: Thread) {
    && QueueOk(s) && t !in s.pendq
    && match s.owner
       case Nobody => s.pendq == [] && s.holders == {}
       case Held(u) => if u in s.pendq then s.pendq[0] == u && s.holders == {}
                       else if u == t then s.holders <= {t} else s.holders == {u}
  }

  lemma {:induction false} WithoutIs(q: seq<Thread>, t: Thread)
    requires AllDifferent(q) && t in q
    ensures var i := Position(q, t);
            var r := Without(q, t);
            && |r| == |q| - 1 && t !in r
            && (forall j :: 0 <= j < |r| ==> r[j] == q[if j < i then j else j + 1])
            && (forall u :: u in r <==> u in q && u != t)
            && AllDifferent(r)
  {
    var i := Position(q, t);
    var r := Without(q, t);
    assert forall j :: 0 <= j < |r| ==> r[j] == q[if j < i then j else j + 1];
    hide Position, Without;
    forall u | u in q && u != t ensures u in r {
      var k :| 0 <= k < |q| && q[k] == u;
      assert r[if k < i then k else k - 1] == u;
    }
    forall u | u in r ensures u in q && u != t {
      var j :| 0 <= j < |r| && r[j] == u;
      assert q[if j < i then j else j + 1] == u && q[i] == t;
    }
    forall j, k | 0 <= j < k < |r| ensures r[j] != r[k] {
      assert r[j] == q[if j < i then j else j + 1] && r[k] == q[if k < i then k else k + 1];
    }
  }

  /** Queueing at the tail. */
  lemma {:induction false} QueueingKeeps(s: State, t: Thread, timed: bool)
    requires QueueOk(s) && t !in s.pendq
    ensures QueueOk(s.(pendq := s.pendq + [t], asleep := s.asleep[t := timed],
                       since := s.since[t := s.clock], clock := s.clock + 1))
  {
    var q, since := s.pendq + [t], s.since[t := s.clock];
    forall i, j | 0 <= i < j < |q| ensures q[i] != q[j] && since[q[i]] < since[q[j]] {
      assert q[i] == s.pendq[i] && q[i] in s.pendq;
      if j < |s.pendq| {
        assert q[j] == s.pendq[j] && q[j] in s.pendq;
      }
    }
  }

  lemma {:induction false} RoundKeeps(s: State, t: Thread, looped: bool, wait: Wait)
    requires Resuming(s, t)
    ensures Inv(Round(s, t, looped, wait).0)
  {
    QueueingKeeps(s, t, wait != Forever);
    QueueSame(s, s.(owner := Held(t), holders := s.holders + {t}));
    hide QueueOk;
    if s.owner == Held(t) || s.owner == Nobody {
      assert s.holders + {t} == {t};
    }
  }

  /** The queue does not depend on the owner. */
  lemma {:induction false} QueueSame(s: State, s': State)
    requires s'.pendq == s.pendq && s'.asleep == s.asleep && s'.since == s.since && s'.clock == s.clock
    ensures QueueOk(s') == QueueOk(s)
  {
  }

  function Dequeued(s: State, t: Thread): State {
    s.(pendq := Without(s.pendq, t), asleep := s.asleep - {t}, since := s.since - {t})
  }

  /** The queue is in the order of the stamps. */
  ghost predicate Stamped(q: seq<Thread>, since: map<Thread, nat>) {
    && (forall t :: t in q ==> t in since)
    && (forall i, j :: 0 <= i < j < |q| ==> since[q[i]] < since[q[j]])
  }

  lemma {:induction false} StampedWithout(q: seq<Thread>, since: map<Thread, nat>, t: Thread)
    requires AllDifferent(q) && t in q && Stamped(q, since)
    ensures Stamped(Without(q, t), since - {t})
  {
    WithoutIs(q, t);
    var r, i := Without(q, t), Position(q, t);
    assert forall u :: u in r ==> u in since - {t} && (since - {t})[u] == since[u];
    forall m, n | 0 <= m < n < |r| ensures (since - {t})[r[m]] < (since - {t})[r[n]] {
      assert r[m] in r && r[n] in r;
      assert r[m] == q[if m < i then m else m + 1] && r[n] == q[if n < i then n else n + 1];
    }
  }

  lemma {:induction false} DequeueQueue(s: State, t: Thread)
    requires QueueOk(s) && t in s.pendq
    ensures QueueOk(Dequeued(s, t))
  {
    StampedWithout(s.pendq, s.since, t);
    WithoutIs(s.pendq, t);
    hide Without, Stamped, Position;
  }

  lemma {:induction false} DequeueKeeps(s: State, t: Thread)
    requires Inv(s) && t in s.asleep
    ensures Resuming(Dequeued(s, t), t)
  {
    assert t in s.pendq;
    DequeueQueue(s, t);
    WithoutIs(s.pendq, t);
    if s.owner.Held? && s.owner.thread in s.pendq && s.owner.thread != t {
      assert Position(s.pendq, t) != 0;
      assert Without(s.pendq, t)[0] == s.pendq[0];
    }
    hide Without, Position, QueueOk, AllDifferent;
  }

  lemma {:induction false} StepKeepsInv(s: State, a: Action)
    requires Inv(s) && Enabled(s, a)
    ensures Inv(Step(s, a).0)
  {
    hide Without, Position, Round;
    match a
    case Acquire(t, wait) =>
      RoundKeeps(s, t, false, wait);
    case Resume(t) =>
      DequeueKeeps(s, t);
      RoundKeeps(Dequeued(s, t), t, s.asleep[t], Forever);
    case Release(t) =>
  }

  // ---------------------------------------------------------------- every interleaving

  ghost predicate Possible(s: State, run: seq<Action>)
    decreases |run|
  {
    run == [] || (Enabled(s, run[0]) && Possible(Step(s, run[0]).0, run[1..]))
  }

  function After(s: State, run: seq<Action>): State
    decreases |run|
  {
    if run == [] then s else After(Step(s, run[0]).0, run[1..])
  }

  lemma {:induction false} RunKeepsInv(s: State, run: seq<Action>)
    requires Inv(s) && Possible(s, run)
    ensures Inv(After(s, run))
    decreases |run|
  {
    if run != [] {
      StepKeepsInv(s, run[0]);
      RunKeepsInv(Step(s, run[0]).0, run[1..]);
    }
  }

  /** Mutual exclusion and no barging, in every interleaving: at most one thread is between a
      successful acquire and its release, that thread is the owner, and a mutex nobody owns
      has nobody waiting for it. */
  lemma MutualExclusion(run: seq<Action>)
    requires Possible(INIT, run)
    ensures var s := After(INIT, run);
            && |s.holders| <= 1
            && (forall t :: t in s.holders ==> s.owner == Held(t) && t !in s.pendq)
            && (s.owner == Nobody ==> s.pendq == [])
  {
    RunKeepsInv(INIT, run);
    var s := After(INIT, run);
    assert s.owner.Held? ==> s.holders <= {s.owner.thread};
    if s.holders != {} {
      assert s.holders == {s.owner.thread};
    }
  }

  /** An acquire that returns -1 leaves its caller neither owner nor queued nor holder, however
      its timeout raced a hand-off, and only a caller that would not wait for ever gets -1. */
  lemma {:induction false} GivingUpIsClean(s: State, a: Action)
    requires Inv(s) && Enabled(s, a) && Step(s, a).1 == GaveUp
    ensures var s' := Step(s, a).0;
            s'.owner != Held(a.t) && a.t !in s'.pendq && a.t !in s'.asleep && a.t !in s'.holders
    ensures a.Acquire? ==> a.wait == NoWait
    ensures a.Resume? ==> s.asleep[a.t]
  {
    StepKeepsInv(s, a);
    if a.Resume? {
      WithoutIs(s.pendq, a.t);
    }
  }

  /** A thread that was handed the mutex gets it when it resumes, even if its timeout fired. */
  lemma {:induction false} HandOffIsNeverLost(s: State, t: Thread)
    requires Inv(s) && t in s.asleep && s.owner == Held(t)
    ensures Step(s, Resume(t)).1 == Acquired && Step(s, Resume(t)).0.holders == {t}
  {
    StepKeepsInv(s, Resume(t));
    WithoutIs(s.pendq, t);
  }

  /** A release by the owner hands the mutex to the thread that has been queued longest. */
  lemma {:induction false} ReleaseServesLongestWaiting(s: State, t: Thread)
    requires Inv(s) && t !in s.asleep && s.owner == Held(t)
    ensures var (s', e) := Step(s, Release(t));
            if s.pendq == [] then e == Freed && s'.owner == Nobody
            else
              && e == Passed(s.pendq[0]) && s'.owner == Held(s.pendq[0])
              && forall u :: u in s.pendq && u != s.pendq[0] ==> s.since[s.pendq[0]] < s.since[u]
  {
    forall u | u in s.pendq && u != s.pendq[0] ensures s.since[s.pendq[0]] < s.since[u] {
      var i :| 0 <= i < |s.pendq| && s.pendq[i] == u;
    }
  }

  // ---------------------------------------------------------------- how calls end

  /** What an acquire comes to when it is made: a free mutex, or one's own, is acquired whatever the
      wait; otherwise a caller that would not wait gives up and leaves no trace, and any other is
      queued last and sleeps. */
  lemma {:induction false} AcquireEnds(s: State, t: Thread, wait: Wait)
    requires Inv(s) && Enabled(s, Acquire(t, wait))
    ensures var (s', e) := Step(s, Acquire(t, wait));
            && (e == Acquired <==> s.owner == Nobody || s.owner == Held(t))
            && (e == GaveUp <==> s.owner != Nobody && s.owner != Held(t) && wait == NoWait)
            && (e == Queued <==> s.owner != Nobody && s.owner != Held(t) && wait != NoWait)
            && (e == Acquired ==> s'.owner == Held(t) && s'.holders == {t} && s'.pendq == s.pendq)
            && (e == GaveUp ==> s' == s)
            && (e == Queued ==>
                  && s'.pendq == s.pendq + [t] && s'.owner == s.owner && s'.holders == s.holders
                  && t in s'.asleep && (s'.asleep[t] <==> wait == Timed))
  {
    StepKeepsInv(s, Acquire(t, wait));
    assert s.owner.Held? ==> s.owner.thread in s.holders || s.owner.thread in s.pendq;
  }

  /** What it comes to when the sleep is over: the thread that owns the mutex by then has acquired
      it; another one gives up if its wait was limited, and is queued last again if it was not. */
  lemma {:induction false} ResumeEnds(s: State, t: Thread)
    requires Inv(s) && t in s.asleep
    ensures var (s', e) := Step(s, Resume(t));
            && (e == Acquired <==> s.owner == Held(t))
            && (e == GaveUp <==> s.owner != Held(t) && s.asleep[t])
            && (e == Queued <==> s.owner != Held(t) && !s.asleep[t])
            && (e != Queued ==> t !in s'.asleep && s'.pendq == Without(s.pendq, t))
            && (e == Queued ==>
                  && s'.pendq == Without(s.pendq, t) + [t] && s'.owner == s.owner
                  && t in s'.asleep && !s'.asleep[t])
  {
    DequeueLeaves(s, t);
    hide Inv, Without, Position, QueueOk;
  }

  /** The queue without t; and while t was queued, somebody owned the mutex. */
  lemma DequeueLeaves(s: State, t: Thread)
    requires Inv(s) && t in s.asleep
    ensures s.owner != Nobody
    ensures var d := Dequeued(s, t);
            && d.pendq == Without(s.pendq, t) && d.owner == s.owner && t !in d.asleep
  {
  }

  /** A release by a thread that does not own the mutex does nothing. */
  lemma ReleaseByOther(s: State, t: Thread)
    requires s.owner != Held(t)
    ensures Step(s, Release(t)) == (s, NotOwner)
  {
  }

  lemma SleepsThrough(s: State, a: Action, t: Thread)
    requires t in s.asleep && a.t != t
    ensures var s' := Step(s, a).0; t in s'.asleep && s'.asleep[t] == s.asleep[t]
  {
  }

  /** Whatever the other threads do while t sleeps, t stays queued as it is. */
  lemma {:induction false} SleepsOn(s: State, run: seq<Action>, t: Thread)
    requires Inv(s) && Possible(s, run) && t in s.asleep
    requires forall i :: 0 <= i < |run| ==> run[i].t != t
    ensures var s' := After(s, run); t in s'.asleep && s'.asleep[t] == s.asleep[t]
    decreases |run|
  {
    hide Inv, Step;
    if run != [] {
      StepKeepsInv(s, run[0]);
      SleepsThrough(s, run[0], t);
      SleepsOn(Step(s, run[0]).0, run[1..], t);
    }
  }

  /** A timeout ends an acquire: a thread that was queued with a limited wait has its result, 0 or
      -1, the next time it runs, in every interleaving with the other threads. */
  lemma TimedAcquireEnds(s: State, t: Thread, run: seq<Action>)
    requires Inv(s) && Enabled(s, Acquire(t, Timed)) && Step(s, Acquire(t, Timed)).1 == Queued
    requires Possible(Step(s, Acquire(t, Timed)).0, run) && forall i :: 0 <= i < |run| ==> run[i].t != t
    ensures var s' := After(Step(s, Acquire(t, Timed)).0, run);
            && Enabled(s', Resume(t))
            && Step(s', Resume(t)).1 == if s'.owner == Held(t) then Acquired else GaveUp
  {
    hide Possible, After, Inv, Round;
    StepKeepsInv(s, Acquire(t, Timed));
    AcquireEnds(s, t, Timed);
    var s1 := Step(s, Acquire(t, Timed)).0;
    SleepsOn(s1, run, t);
    RunKeepsInv(s1, run);
    ResumeEnds(After(s1, run), t);
  }

  // ---------------------------------------------------------------- bounded waiting

  /** The threads queued before t. */
  function Ahead(q: seq<Thread>, t: Thread): seq<Thread> {
    q[..Position(q, t)]
  }

  /** How many hand-offs can still happen before t owns the mutex. */
  function Distance(s: State, t: Thread): nat {
    |Ahead(s.pendq, t)| + if s.owner.Held? && s.owner.thread in s.pendq then 0 else 1
  }

  /** Steps of the run that hand the mutex over. */
  function Passes(s: State, run: seq<Action>): seq<Thread>
    decreases |run|
  {
    if run == [] then []
    else
      var (s', e) := Step(s, run[0]);
      (if e.Passed? then [e.to] else []) + Passes(s', run[1..])
  }

  lemma {:induction false} PositionUnique(q: seq<Thread>, t: Thread, i: nat)
    requires AllDifferent(q) && i < |q| && q[i] == t
    ensures Position(q, t) == i
  {
  }

  lemma {:induction false} PositionAppend(q: seq<Thread>, t: Thread, u: Thread)
    requires t in q
    ensures Position(q + [u], t) == Position(q, t)
  {
    if q[0] != t {
      assert (q + [u])[1..] == q[1..] + [u];
      PositionAppend(q[1..], t, u);
    }
  }

  /** Another thread u leaving the queue. */
  lemma {:induction false} DequeueServes(q: seq<Thread>, u: Thread, t: Thread)
    requires AllDifferent(q) && u in q && t in q && u != t
    ensures var k, i, r := Position(q, t), Position(q, u), Without(q, u);
            && t in r && Position(r, t) == (if k < i then k else k - 1)
            && forall v :: v in Ahead(r, t) ==> v in Ahead(q, t)
  {
    WithoutIs(q, u);
    var k, i, r := Position(q, t), Position(q, u), Without(q, u);
    assert r[if k < i then k else k - 1] == t;
    PositionUnique(r, t, if k < i then k else k - 1);
    AheadOfRest(q, r, i, t);
  }

  lemma {:induction false} AheadOfRest(q: seq<Thread>, r: seq<Thread>, i: nat, t: Thread)
    requires t in q && t in r && |r| == |q| - 1 && forall j :: 0 <= j < |r| ==> r[j] == q[if j < i then j else j + 1]
    requires Position(r, t) == if Position(q, t) < i then Position(q, t) else Position(q, t) - 1
    ensures forall v :: v in Ahead(r, t) ==> v in Ahead(q, t)
  {
    hide Position;
    forall v | v in Ahead(r, t) ensures v in Ahead(q, t) {
      var n :| 0 <= n < |Ahead(r, t)| && Ahead(r, t)[n] == v;
      assert r[n] == v;
      assert Ahead(q, t)[if n < i then n else n + 1] == v;
    }
  }

  /** While t waits and does nothing, nobody gets ahead of it, each hand-off brings it closer,
      and goes to t or to a thread that was ahead of it. */
  lemma {:induction false} StepServesQueue(s: State, a: Action, t: Thread)
    requires Inv(s) && Enabled(s, a) && t in s.pendq && a.t != t
    ensures var (s', e) := Step(s, a);
            && t in s'.pendq
            && (forall u :: u in Ahead(s'.pendq, t) ==> u in Ahead(s.pendq, t))
            && Distance(s', t) + (if e.Passed? then 1 else 0) <= Distance(s, t)
            && (e.Passed? ==> e.to == t || e.to in Ahead(s.pendq, t))
  {
    var (s', e) := Step(s, a);
    match a
    case Acquire(u, wait) =>
      AheadAppend(s.pendq, t, u);
    case Resume(u) =>
      ResumeServes(s, u, t);
    case Release(u) =>
      if e.Passed? {
        var k := Position(s.pendq, t);
        assert k == 0 || Ahead(s.pendq, t)[0] == e.to;
      }
  }

  lemma {:induction false} AheadAppend(q: seq<Thread>, t: Thread, u: Thread)
    requires t in q
    ensures Ahead(q + [u], t) == Ahead(q, t) && t in q + [u]
  {
    PositionAppend(q, t, u);
  }

  lemma {:induction false} ResumeServes(s: State, u: Thread, t: Thread)
    requires Inv(s) && u in s.asleep && t in s.pendq && u != t
    ensures var (s', e) := Step(s, Resume(u));
            && t in s'.pendq && !e.Passed?
            && (forall v :: v in Ahead(s'.pendq, t) ==> v in Ahead(s.pendq, t))
            && Distance(s', t) <= Distance(s, t)
  {
    ResumeIs(s, u);
    InvQueue(s);
    LeavingServes(s.pendq, u, t);
    OwnerStays(s, u);
    hide Step, Inv, Without, Position, AllDifferent, QueueOk, Ahead;
  }

  lemma InvQueue(s: State)
    requires Inv(s)
    ensures AllDifferent(s.pendq)
  {
  }

  /** The queue after u left it, perhaps to queue again behind, seen from t. */
  lemma {:induction false} LeavingServes(q: seq<Thread>, u: Thread, t: Thread)
    requires AllDifferent(q) && u in q && t in q && u != t
    ensures var r := Without(q, u);
            && t in r && t in r + [u] && Ahead(r + [u], t) == Ahead(r, t)
            && (forall v :: v in Ahead(r, t) ==> v in Ahead(q, t)) && |Ahead(r, t)| <= |Ahead(q, t)|
            && (Position(q, u) == 0 ==> |Ahead(r, t)| == |Ahead(q, t)| - 1)
  {
    DequeueServes(q, u, t);
    AheadAppend(Without(q, u), t, u);
    AheadShorter(q, u, t);
  }

  /** While u resumes, another owner stays in the queue if it was there; u itself heads it. */
  lemma {:induction false} OwnerStays(s: State, u: Thread)
    requires Inv(s) && s.owner.Held? && u in s.pendq
    ensures var o, r := s.owner.thread, Without(s.pendq, u);
            && (o == u ==> Position(s.pendq, u) == 0)
            && (o != u && o in s.pendq ==> o in r && o in r + [u])
  {
    WithoutIs(s.pendq, u);
    if s.owner.thread == u {
      OwnerHeads(s);
    }
  }

  /** What a resuming thread does, in short: it leaves the queue, perhaps to queue again behind. */
  lemma {:induction false} ResumeIs(s: State, u: Thread)
    requires Inv(s) && u in s.asleep
    ensures var (s', e) := Step(s, Resume(u));
            && u in s.pendq && s.owner.Held? && !e.Passed? && s'.owner == s.owner
            && (s'.pendq == Without(s.pendq, u) || s'.pendq == Without(s.pendq, u) + [u])
            && (s.owner == Held(u) ==> s'.pendq == Without(s.pendq, u))
  {
    hide Without, Position, AllDifferent, Stamped;
  }

  lemma {:induction false} AheadShorter(q: seq<Thread>, u: Thread, t: Thread)
    requires AllDifferent(q) && u in q && t in q && u != t
    ensures |Ahead(Without(q, u), t)| <= |Ahead(q, t)|
    ensures Position(q, u) == 0 ==> |Ahead(Without(q, u), t)| == |Ahead(q, t)| - 1
  {
    DequeueServes(q, u, t);
  }

  lemma {:induction false} OwnerHeads(s: State)
    requires Inv(s) && s.owner.Held? && s.owner.thread in s.pendq
    ensures Position(s.pendq, s.owner.thread) == 0
  {
  }

  /** Bounded waiting: from any moment at which t is queued, while t itself does nothing, the
      mutex is handed over at most once to each thread ahead of t and then to t; nobody queued
      later is served before it. */
  lemma {:induction false} NoOvertaking(s: State, run: seq<Action>, t: Thread)
    requires Inv(s) && Possible(s, run) && t in s.pendq
    requires forall i :: 0 <= i < |run| ==> run[i].t != t
    ensures t in After(s, run).pendq
    ensures |Passes(s, run)| + Distance(After(s, run), t) <= Distance(s, t) <= |Ahead(s.pendq, t)| + 1
    ensures forall u :: u in Passes(s, run) ==> u == t || u in Ahead(s.pendq, t)
    ensures |Passes(s, run)| == |Ahead(s.pendq, t)| + 1 ==> After(s, run).owner == Held(t)
    decreases |run|
  {
    if run != [] {
      StepServesQueue(s, run[0], t);
      StepKeepsInv(s, run[0]);
      NoOvertaking(Step(s, run[0]).0, run[1..], t);
    }
    RunKeepsInv(s, run);
    var s' := After(s, run);
    if |Passes(s, run)| == |Ahead(s.pendq, t)| + 1 {
      assert |Ahead(s'.pendq, t)| == 0 && s'.owner.Held? && s'.owner.thread in s'.pendq;
      assert s'.pendq[0] == t;
    }
  }

  // ---------------------------------------------------------------- the critical sections

  class Mutex {
    var owner: Owner
    var pendq: seq<Thread>
    // The threads' own side: where each one stands in its call. Not stored in the mutex.
    ghost var asleep: map<Thread, bool>
    ghost var holders: set<Thread>
    ghost var since: map<Thread, nat>
    ghost var clock: nat

    ghost function Now(): State
      reads this
    {
      State(owner, pendq, asleep, holders, since, clock)
    }

    constructor ()
      ensures Now() == INIT
    {
      owner, pendq := Nobody, [];
      asleep, holders, since, clock := map[], {}, map[], 0;
    }

    /** The loop body of mtx_acquire up to where it unlocks: None means the thread now sleeps. */
    method TryOwn(t: Thread, looped: bool, wait: Wait) returns (e: Event)
      modifies this
      ensures (Now(), e) == Round(old(Now()), t, looped, wait)
    {
      if owner == Nobody {
        owner := Held(t);
        holders := holders + {t};
        return Acquired;
      }
      if owner == Held(t) {
        holders := holders + {t};
        return Acquired;
      }
      if looped {
        return GaveUp;
      }
      if wait == NoWait {
        return GaveUp;
      }
      pendq := pendq + [t];
      asleep := asleep[t := wait != Forever];
      since, clock := since[t := clock], clock + 1;
      return Queued;
    }

    method AcquireEnter(t: Thread, wait: Wait) returns (e: Event)
      modifies this
      ensures (Now(), e) == Step(old(Now()), Acquire(t, wait))
    {
      e := TryOwn(t, false, wait);
    }

    /** Back from sched_sleep: the node is taken off the queue and the loop runs once more. */
    method AcquireResume(t: Thread, looped: bool) returns (e: Event)
      requires t in asleep && asleep[t] == looped
      modifies this
      ensures (Now(), e) == Step(old(Now()), Resume(t))
    {
      var i := 0;
      while i < |pendq| && pendq[i] != t
        invariant 0 <= i <= |pendq|
        invariant forall j :: 0 <= j < i ==> pendq[j] != t
      {
        i := i + 1;
      }
      assert i == Position(pendq, t);
      if i < |pendq| {
        pendq := RemoveAt(pendq, i);
      }
      asleep, since := asleep - {t}, since - {t};
      e := TryOwn(t, looped, Forever);
    }

    method ReleaseBy(t: Thread) returns (e: Event)
      modifies this
      ensures (Now(), e) == Step(old(Now()), Release(t))
    {
      if owner != Held(t) {
        return NotOwner;
      }
      owner := Nobody;
      holders := holders - {t};
      if pendq == [] {
        return Freed;
      }
      owner := Held(pendq[0]);
      return Passed(pendq[0]);
    }
  }
}
