/** Lists of extents kept in fixed-capacity slot headers: vm_extent_insert and
    vm_extent_extract (mm/vm_extent.c) as functions on the list of headers, what they mean
    for the address map, and the in-place methods proved against them. */
module ExtentLists {
  import opened Sequences
  import opened Extents

  /** A slot header: avail is the length of avail_ext, busy the extents of busy_ext in order. */
  datatype Hdr = Hdr(cap: nat, avail: nat, busy: seq<Extent>)

  // ---------------------------------------------------------------- the address map of a list

  /** How many extents of l cover address a with attributes q. */
  ghost function Count(l: seq<Extent>, a: int, q: Query): nat {
    if l == [] then 0 else Cov(l[0], a, q) + Count(l[1..], a, q)
  }

  ghost function Total(hs: seq<Hdr>, a: int, q: Query): nat {
    if hs == [] then 0 else Count(hs[0].busy, a, q) + Total(hs[1..], a, q)
  }

  lemma {:induction false} CountConcat(s: seq<Extent>, t: seq<Extent>, a: int, q: Query)
    ensures Count(s + t, a, q) == Count(s, a, q) + Count(t, a, q)
  {
    if s == [] {
      assert s + t == t;
    } else {
      assert (s + t)[1..] == s[1..] + t;
      CountConcat(s[1..], t, a, q);
    }
  }

  lemma CountSplit(l: seq<Extent>, k: nat, a: int, q: Query)
    requires k < |l|
    ensures Count(l, a, q) == Count(l[..k], a, q) + Cov(l[k], a, q) + Count(l[k + 1..], a, q)
  {
    assert l == l[..k] + l[k..];
    CountConcat(l[..k], l[k..], a, q);
    assert l[k..][1..] == l[k + 1..];
  }

  lemma CountUpdate(l: seq<Extent>, k: nat, e: Extent, a: int, q: Query)
    requires k < |l|
    ensures Count(l[k := e], a, q) == Count(l, a, q) - Cov(l[k], a, q) + Cov(e, a, q)
  {
    CountSplit(l, k, a, q);
    CountSplit(l[k := e], k, a, q);
    assert l[k := e][..k] == l[..k] && l[k := e][k + 1..] == l[k + 1..];
  }

  lemma CountRemove(l: seq<Extent>, k: nat, a: int, q: Query)
    requires k < |l|
    ensures Count(RemoveAt(l, k), a, q) == Count(l, a, q) - Cov(l[k], a, q)
  {
    CountSplit(l, k, a, q);
    CountConcat(l[..k], l[k + 1..], a, q);
  }

  lemma {:induction false} TotalConcat(s: seq<Hdr>, t: seq<Hdr>, a: int, q: Query)
    ensures Total(s + t, a, q) == Total(s, a, q) + Total(t, a, q)
  {
    if s == [] {
      assert s + t == t;
    } else {
      assert (s + t)[1..] == s[1..] + t;
      TotalConcat(s[1..], t, a, q);
    }
  }

  lemma TotalSplit(hs: seq<Hdr>, i: nat, a: int, q: Query)
    requires i < |hs|
    ensures Total(hs, a, q) == Total(hs[..i], a, q) + Count(hs[i].busy, a, q) + Total(hs[i + 1..], a, q)
  {
    assert hs == hs[..i] + hs[i..];
    TotalConcat(hs[..i], hs[i..], a, q);
    assert hs[i..][1..] == hs[i + 1..];
  }

  lemma TotalUpdate(hs: seq<Hdr>, i: nat, h: Hdr, a: int, q: Query)
    requires i < |hs|
    ensures Total(hs[i := h], a, q) == Total(hs, a, q) - Count(hs[i].busy, a, q) + Count(h.busy, a, q)
  {
    TotalSplit(hs, i, a, q);
    TotalSplit(hs[i := h], i, a, q);
    assert hs[i := h][..i] == hs[..i] && hs[i := h][i + 1..] == hs[i + 1..];
  }

  /** An address that the map of the list shows is really in one of its extents. */
  lemma {:induction false} CountWitness(l: seq<Extent>, a: int, q: Query) returns (k: nat)
    requires Count(l, a, q) > 0
    ensures k < |l| && Cov(l[k], a, q) == 1
  {
    if Cov(l[0], a, q) == 1 {
      k := 0;
    } else {
      k := CountWitness(l[1..], a, q);
      k := k + 1;
    }
  }

  lemma {:induction false} TotalWitness(hs: seq<Hdr>, a: int, q: Query) returns (i: nat, k: nat)
    requires Total(hs, a, q) > 0
    ensures i < |hs| && k < |hs[i].busy| && Cov(hs[i].busy[k], a, q) == 1
  {
    if Count(hs[0].busy, a, q) > 0 {
      i := 0;
      k := CountWitness(hs[0].busy, a, q);
    } else {
      i, k := TotalWitness(hs[1..], a, q);
      i := i + 1;
    }
  }

  lemma TotalCovers(hs: seq<Hdr>, i: nat, k: nat, a: int, q: Query)
    requires i < |hs| && k < |hs[i].busy|
    ensures Total(hs, a, q) >= Cov(hs[i].busy[k], a, q)
  {
    TotalSplit(hs, i, a, q);
    CountSplit(hs[i].busy, k, a, q);
  }

  // ---------------------------------------------------------------- free slots

  function AvailSum(hs: seq<Hdr>): nat {
    if hs == [] then 0 else hs[0].avail + AvailSum(hs[1..])
  }

  lemma {:induction false} AvailConcat(s: seq<Hdr>, t: seq<Hdr>)
    ensures AvailSum(s + t) == AvailSum(s) + AvailSum(t)
  {
    if s == [] {
      assert s + t == t;
    } else {
      assert (s + t)[1..] == s[1..] + t;
      AvailConcat(s[1..], t);
    }
  }

  lemma AvailUpdate(hs: seq<Hdr>, i: nat, h: Hdr)
    requires i < |hs|
    ensures AvailSum(hs[i := h]) == AvailSum(hs) - hs[i].avail + h.avail
    ensures AvailSum(hs) == AvailSum(hs[..i]) + hs[i].avail + AvailSum(hs[i + 1..])
  {
    assert hs == hs[..i] + ([hs[i]] + hs[i + 1..]);
    assert hs[i := h] == hs[..i] + ([h] + hs[i + 1..]);
    AvailConcat(hs[..i], [hs[i]] + hs[i + 1..]);
    AvailConcat(hs[..i], [h] + hs[i + 1..]);
  }

  lemma {:induction false} AvailZero(hs: seq<Hdr>)
    ensures AvailSum(hs) == 0 <==> forall i :: 0 <= i < |hs| ==> hs[i].avail == 0
  {
    if hs != [] {
      AvailZero(hs[1..]);
      assert forall i :: 0 < i < |hs| ==> hs[i] == hs[1..][i - 1];
      assert forall i :: 0 <= i < |hs[1..]| ==> hs[1..][i] == hs[i + 1];
    }
  }

  // ---------------------------------------------------------------- invariant

  /** No two busy extents of one header could be joined. */
  predicate Apart(busy: seq<Extent>) {
    forall i, j :: 0 <= i < |busy| && 0 <= j < |busy| && i != j ==> !Joinable(busy[i], busy[j])
  }

  predicate AllWellFormed(busy: seq<Extent>) {
    forall i :: 0 <= i < |busy| ==> WellFormed(busy[i])
  }

  predicate HdrOk(h: Hdr) {
    && h.avail + |h.busy| == h.cap
    && AllWellFormed(h.busy)
    && Apart(h.busy)
  }

  predicate ListOk(hs: seq<Hdr>) {
    forall i :: 0 <= i < |hs| ==> HdrOk(hs[i])
  }

  // ---------------------------------------------------------------- vm_extent_insert

  /** First index from k whose extent ext can be joined to; |busy| when there is none. */
  function FirstJoin(busy: seq<Extent>, ext: Extent, k: nat): (r: nat)
    requires k <= |busy|
    ensures k <= r <= |busy|
    ensures forall i :: k <= i < r ==> !Joinable(ext, busy[i])
    ensures r < |busy| ==> Joinable(ext, busy[r])
    decreases |busy| - k
  {
    if k == |busy| || Joinable(ext, busy[k]) then k else FirstJoin(busy, ext, k + 1)
  }

  /** First index from k whose extent can be merged into c; |busy| when there is none. */
  function FirstMerge(busy: seq<Extent>, c: Extent, k: nat): (r: nat)
    requires k <= |busy|
    ensures k <= r <= |busy|
    ensures forall i :: k <= i < r ==> !Joinable(busy[i], c)
    ensures r < |busy| ==> Joinable(busy[r], c)
    decreases |busy| - k
  {
    if k == |busy| || Joinable(busy[k], c) then k else FirstMerge(busy, c, k + 1)
  }

  /** busy after ext is joined to busy[k]: the grown extent swallows at most one later extent,
      because moving that one to avail_ext clears its next pointer and ends the merge loop. */
  function JoinAt(busy: seq<Extent>, ext: Extent, k: nat): (r: seq<Extent>)
    requires k < |busy|
    ensures |r| <= |busy| <= |r| + 1
  {
    var c := Join(ext, busy[k]);
    var j := FirstMerge(busy, c, k + 1);
    if j == |busy| then busy[k := c] else RemoveAt(busy, j)[k := Join(busy[j], c)]
  }

  /** First header from i that holds an extent ext can be joined to. */
  function FirstJoinHdr(hs: seq<Hdr>, ext: Extent, i: nat): (r: nat)
    requires i <= |hs|
    ensures i <= r <= |hs|
    ensures forall n :: i <= n < r ==> FirstJoin(hs[n].busy, ext, 0) == |hs[n].busy|
    ensures r < |hs| ==> FirstJoin(hs[r].busy, ext, 0) < |hs[r].busy|
    decreases |hs| - i
  {
    if i == |hs| || FirstJoin(hs[i].busy, ext, 0) < |hs[i].busy| then i else FirstJoinHdr(hs, ext, i + 1)
  }

  predicate JoinableList(hs: seq<Hdr>, ext: Extent) {
    FirstJoinHdr(hs, ext, 0) < |hs|
  }

  /** The header chosen after looking at the first n: least positive count of free slots. */
  function Pick(hs: seq<Hdr>, n: nat): (f: nat)
    requires 0 < |hs| && n <= |hs|
    ensures f < |hs|
  {
    if n == 0 then 0
    else
      var f := Pick(hs, n - 1);
      var h := hs[n - 1];
      if (h.avail > 0 && h.avail < hs[f].avail) || hs[f].avail == 0 then n - 1 else f
  }

  lemma {:induction false} PickIsTightest(hs: seq<Hdr>, n: nat)
    requires 0 < |hs| && n <= |hs|
    ensures forall i :: 0 <= i < n && hs[i].avail > 0 ==> 0 < hs[Pick(hs, n)].avail <= hs[i].avail
  {
    if n > 0 {
      PickIsTightest(hs, n - 1);
    }
  }

  function Inserted(hs: seq<Hdr>, ext: Extent): (seq<Hdr>, Status) {
    if !RegionOk(ext.flags) then (hs, FAIL)
    else if ext.length == 0 then (hs, NOENT)
    else if JoinableList(hs, ext) then
      var i := FirstJoinHdr(hs, ext, 0);
      var h := hs[i];
      var busy := JoinAt(h.busy, ext, FirstJoin(h.busy, ext, 0));
      (hs[i := Hdr(h.cap, h.avail + |h.busy| - |busy|, busy)], OK)
    else if hs == [] then (hs, NOMEM)
    else
      var f := Pick(hs, |hs|);
      var h := hs[f];
      if h.avail == 0 then (hs, NOMEM)
      else (hs[f := Hdr(h.cap, h.avail - 1, h.busy + [ext])], OK)
  }

  /** The grown extent can only touch what ext touched, given that x and dest were apart. */
  lemma GrownTouches(x: Extent, ext: Extent, dest: Extent)
    requires WellFormed(x) && WellFormed(ext) && WellFormed(dest)
    requires Joinable(ext, dest) && !Joinable(x, dest)
    ensures Joinable(x, Join(ext, dest)) ==> Joinable(ext, x)
    ensures Joinable(x, Join(ext, dest)) == Joinable(Join(ext, dest), x)
  {
    JoinConserves(ext, dest);
    JoinableMeansAdjacent(ext, dest);
    JoinableMeansAdjacent(x, ext);
    JoinableMeansAdjacent(x, dest);
    JoinableMeansAdjacent(x, Join(ext, dest));
  }

  /** After one merge both ends belong to extents that were apart from everything else. */
  lemma MergedTouchesNothing(x: Extent, m: Extent, ext: Extent, dest: Extent)
    requires WellFormed(x) && WellFormed(m) && WellFormed(ext) && WellFormed(dest)
    requires Joinable(ext, dest) && WellFormed(Join(ext, dest)) && Joinable(m, Join(ext, dest))
    requires !Joinable(m, dest) && !Joinable(x, dest) && !Joinable(x, m)
    ensures !Joinable(x, Join(m, Join(ext, dest))) && !Joinable(Join(m, Join(ext, dest)), x)
  {
    var c := Join(ext, dest);
    JoinConserves(ext, dest);
    JoinConserves(m, c);
    JoinableMeansAdjacent(ext, dest);
    JoinableMeansAdjacent(m, c);
    JoinableMeansAdjacent(m, dest);
    JoinableMeansAdjacent(x, m);
    JoinableMeansAdjacent(x, dest);
    JoinableMeansAdjacent(x, Join(m, c));
  }

  lemma RemoveKeeps(busy: seq<Extent>, j: nat)
    requires AllWellFormed(busy) && Apart(busy) && j < |busy|
    ensures AllWellFormed(RemoveAt(busy, j)) && Apart(RemoveAt(busy, j))
  {
  }

  lemma ReplaceKeeps(busy: seq<Extent>, k: nat, d: Extent)
    requires AllWellFormed(busy) && Apart(busy) && k < |busy| && WellFormed(d)
    requires forall i :: 0 <= i < |busy| && i != k ==> !Joinable(busy[i], d) && !Joinable(d, busy[i])
    ensures AllWellFormed(busy[k := d]) && Apart(busy[k := d])
  {
  }

  /** One merge is enough: the grown extent touches nothing else in its header. */
  lemma JoinAtKeepsApart(busy: seq<Extent>, ext: Extent, k: nat)
    requires AllWellFormed(busy) && Apart(busy) && WellFormed(ext)
    requires k < |busy| && FirstJoin(busy, ext, 0) == k
    ensures AllWellFormed(JoinAt(busy, ext, k)) && Apart(JoinAt(busy, ext, k))
  {
    var c := Join(ext, busy[k]);
    var j := FirstMerge(busy, c, k + 1);
    if j == |busy| {
      forall i | 0 <= i < |busy| && i != k ensures !Joinable(busy[i], c) && !Joinable(c, busy[i]) {
        GrownTouches(busy[i], ext, busy[k]);
      }
      assert WellFormed(c) by { JoinConserves(ext, busy[k]); }
      ReplaceKeeps(busy, k, c);
    } else {
      var d := Join(busy[j], c);
      assert WellFormed(c) by { JoinConserves(ext, busy[k]); }
      assert WellFormed(d) by { JoinConserves(busy[j], c); }
      var rest := RemoveAt(busy, j);
      RemoveKeeps(busy, j);
      forall i | 0 <= i < |rest| && i != k ensures !Joinable(rest[i], d) && !Joinable(d, rest[i]) {
        MergedTouchesNothing(rest[i], busy[j], ext, busy[k]);
      }
      ReplaceKeeps(rest, k, d);
    }
  }

  /** The header covers exactly what it covered plus ext. */
  lemma JoinAtCount(busy: seq<Extent>, ext: Extent, k: nat, a: int, q: Query)
    requires AllWellFormed(busy) && WellFormed(ext)
    requires k < |busy| && Joinable(ext, busy[k])
    ensures Count(JoinAt(busy, ext, k), a, q) == Count(busy, a, q) + Cov(ext, a, q)
  {
    var c := Join(ext, busy[k]);
    assert WellFormed(c) && Cov(c, a, q) == Cov(ext, a, q) + Cov(busy[k], a, q) by {
      JoinConserves(ext, busy[k]);
    }
    var j := FirstMerge(busy, c, k + 1);
    if j == |busy| {
      CountUpdate(busy, k, c, a, q);
    } else {
      var d := Join(busy[j], c);
      assert Cov(d, a, q) == Cov(busy[j], a, q) + Cov(c, a, q) by {
        JoinConserves(busy[j], c);
      }
      CountRemove(busy, j, a, q);
      CountUpdate(RemoveAt(busy, j), k, d, a, q);
    }
  }

  predicate Holds(e: Extent, ext: Extent) {
    e.flags == ext.flags && e.prot == ext.prot && Contains(e, ext.base, ext.length)
  }

  lemma JoinAtHolds(busy: seq<Extent>, ext: Extent, k: nat)
    requires AllWellFormed(busy) && WellFormed(ext)
    requires k < |busy| && Joinable(ext, busy[k])
    ensures Holds(JoinAt(busy, ext, k)[k], ext)
  {
    var c := Join(ext, busy[k]);
    JoinConserves(ext, busy[k]);
    var j := FirstMerge(busy, c, k + 1);
    if j < |busy| {
      JoinConserves(busy[j], c);
    }
  }

  lemma InsertCount(hs: seq<Hdr>, ext: Extent, a: int, q: Query)
    requires ListOk(hs) && WellFormed(ext) && Inserted(hs, ext).1 == OK
    ensures Total(Inserted(hs, ext).0, a, q) == Total(hs, a, q) + Cov(ext, a, q)
  {
    var hs' := Inserted(hs, ext).0;
    var i := if JoinableList(hs, ext) then FirstJoinHdr(hs, ext, 0) else Pick(hs, |hs|);
    var h := hs[i];
    TotalUpdate(hs, i, hs'[i], a, q);
    if JoinableList(hs, ext) {
      assert HdrOk(h);
      JoinAtCount(h.busy, ext, FirstJoin(h.busy, ext, 0), a, q);
    } else {
      CountConcat(h.busy, [ext], a, q);
    }
  }

  lemma AppendKeeps(busy: seq<Extent>, ext: Extent)
    requires AllWellFormed(busy) && Apart(busy) && WellFormed(ext)
    requires FirstJoin(busy, ext, 0) == |busy|
    ensures AllWellFormed(busy + [ext]) && Apart(busy + [ext])
  {
    forall i | 0 <= i < |busy| ensures !Joinable(busy[i], ext) && !Joinable(ext, busy[i]) {
      JoinableMeansAdjacent(busy[i], ext);
    }
  }

  lemma InsertKeepsHeaders(hs: seq<Hdr>, ext: Extent)
    requires ListOk(hs) && WellFormed(ext) && Inserted(hs, ext).1 == OK
    ensures var hs' := Inserted(hs, ext).0;
            && ListOk(hs')
            && |hs'| == |hs|
            && (forall i :: 0 <= i < |hs| ==> hs'[i].cap == hs[i].cap)
            && AvailSum(hs') + 1 >= AvailSum(hs)
  {
    var hs' := Inserted(hs, ext).0;
    var i := if JoinableList(hs, ext) then FirstJoinHdr(hs, ext, 0) else Pick(hs, |hs|);
    var h := hs[i];
    assert HdrOk(h);
    AvailUpdate(hs, i, hs'[i]);
    if JoinableList(hs, ext) {
      JoinAtKeepsApart(h.busy, ext, FirstJoin(h.busy, ext, 0));
    } else {
      assert FirstJoin(h.busy, ext, 0) == |h.busy|;
      AppendKeeps(h.busy, ext);
    }
  }

  /** An extent that can be joined to nothing in the only header takes a slot of it, if one is left. */
  lemma InsertIntoOne(cap: nat, avail: nat, busy: seq<Extent>, e: Extent)
    requires RegionOk(e.flags) && 0 < e.length && forall i :: 0 <= i < |busy| ==> !Joinable(e, busy[i])
    ensures Inserted([Hdr(cap, avail, busy)], e) ==
              if avail == 0 then ([Hdr(cap, avail, busy)], NOMEM) else ([Hdr(cap, avail - 1, busy + [e])], OK)
  {
    hide Joinable;
    var hs := [Hdr(cap, avail, busy)];
    assert FirstJoin(busy, e, 0) == |busy|;
    assert FirstJoinHdr(hs, e, 0) == 1;
    assert Pick(hs, 1) == 0;
    if avail > 0 {
      assert hs[0 := Hdr(cap, avail - 1, busy + [e])] == [Hdr(cap, avail - 1, busy + [e])];
    }
  }

  /** No insertion takes more than one slot. */
  lemma InsertTakesOne(hs: seq<Hdr>, ext: Extent)
    ensures AvailSum(Inserted(hs, ext).0) + 1 >= AvailSum(hs)
  {
    var hs' := Inserted(hs, ext).0;
    if RegionOk(ext.flags) && 0 < ext.length && hs != [] {
      var i := if JoinableList(hs, ext) then FirstJoinHdr(hs, ext, 0) else Pick(hs, |hs|);
      AvailUpdate(hs, i, hs'[i]);
    }
  }

  /** Some extent of the list after the insertion holds all of ext, with its attributes. */
  lemma InsertHolds(hs: seq<Hdr>, ext: Extent)
    requires ListOk(hs) && WellFormed(ext) && Inserted(hs, ext).1 == OK
    ensures var hs' := Inserted(hs, ext).0;
            exists i, k :: 0 <= i < |hs'| && 0 <= k < |hs'[i].busy| && Holds(hs'[i].busy[k], ext)
  {
    var hs' := Inserted(hs, ext).0;
    if JoinableList(hs, ext) {
      var i := FirstJoinHdr(hs, ext, 0);
      var k := FirstJoin(hs[i].busy, ext, 0);
      assert HdrOk(hs[i]);
      JoinAtHolds(hs[i].busy, ext, k);
      assert Holds(hs'[i].busy[k], ext);
    } else {
      var i := Pick(hs, |hs|);
      assert Holds(hs'[i].busy[|hs[i].busy|], ext);
    }
  }

  /** Insertion is map update on addresses: exactly ext's addresses are added, with its
      attributes; slot counts and apartness are kept in every header. */
  lemma InsertAddsExactly(hs: seq<Hdr>, ext: Extent)
    requires ListOk(hs) && WellFormed(ext) && Inserted(hs, ext).1 == OK
    ensures var hs' := Inserted(hs, ext).0;
            && ListOk(hs')
            && |hs'| == |hs|
            && (forall i :: 0 <= i < |hs| ==> hs'[i].cap == hs[i].cap)
            && (forall a: int, q :: Total(hs', a, q) == Total(hs, a, q) + Cov(ext, a, q))
            && AvailSum(hs') + 1 >= AvailSum(hs)
  {
    InsertKeepsHeaders(hs, ext);
    forall a: int, q ensures Total(Inserted(hs, ext).0, a, q) == Total(hs, a, q) + Cov(ext, a, q) {
      InsertCount(hs, ext, a, q);
    }
  }

  /** Insertion runs out of slots exactly when nothing can be joined and every header is full. */
  lemma InsertStatus(hs: seq<Hdr>, ext: Extent)
    requires RegionOk(ext.flags) && 0 < ext.length
    ensures Inserted(hs, ext).1 in {OK, NOMEM}
    ensures Inserted(hs, ext).1 == NOMEM <==>
              (forall i, k :: 0 <= i < |hs| && 0 <= k < |hs[i].busy| ==> !Joinable(ext, hs[i].busy[k]))
              && (forall i :: 0 <= i < |hs| ==> hs[i].avail == 0)
    ensures Inserted(hs, ext).1 == NOMEM <==> !JoinableList(hs, ext) && AvailSum(hs) == 0
    ensures Inserted(hs, ext).1 == NOMEM ==> Inserted(hs, ext).0 == hs
  {
    AvailZero(hs);
    if !JoinableList(hs, ext) && hs != [] {
      PickIsTightest(hs, |hs|);
    }
    forall i, k | 0 <= i < |hs| && 0 <= k < |hs[i].busy| && !JoinableList(hs, ext)
      ensures !Joinable(ext, hs[i].busy[k])
    {
      assert FirstJoin(hs[i].busy, ext, 0) == |hs[i].busy|;
    }
  }

  // ---------------------------------------------------------------- vm_extent_extract

  datatype Option<T> = None | Some(value: T)

  datatype Pos = Pos(hdr: nat, idx: nat)

  predicate ValidPos(hs: seq<Hdr>, p: Pos) {
    p.hdr < |hs| && p.idx < |hs[p.hdr].busy|
  }

  function At(hs: seq<Hdr>, p: Pos): Extent
    requires ValidPos(hs, p)
  {
    hs[p.hdr].busy[p.idx]
  }

  predicate Before(p: Pos, q: Pos) {
    p.hdr < q.hdr || (p.hdr == q.hdr && p.idx < q.idx)
  }

  predicate SameRegion(e: Extent, req: Extent) {
    Region(e.flags) == Region(req.flags)
  }

  /** The VM_BASE_AUTO test that replaces best by c. */
  predicate Improves(best: Extent, c: Extent, req: Extent) {
    || (best.length < req.length && c.length >= req.length)
    || (best.length > c.length && c.length >= req.length)
  }

  /** The search of vm_extent_extract from (i, k) on, with the best candidate so far. */
  function Scan(hs: seq<Hdr>, req: Extent, i: nat, k: nat, best: Option<Pos>): (r: Option<Pos>)
    requires best.Some? ==> ValidPos(hs, best.value)
    requires i < |hs| ==> k <= |hs[i].busy|
    ensures r.Some? ==> ValidPos(hs, r.value)
    decreases |hs| - i, if i < |hs| then |hs[i].busy| - k else 0
  {
    if i >= |hs| then best
    else if k >= |hs[i].busy| then Scan(hs, req, i + 1, 0, best)
    else
      var c := hs[i].busy[k];
      if req.base != BASE_AUTO then
        if InRange(c.base, c.length, req.base, req.length) then Some(Pos(i, k))
        else Scan(hs, req, i, k + 1, best)
      else if SameRegion(c, req) && (best.None? || Improves(At(hs, best.value), c, req)) then
        Scan(hs, req, i, k + 1, Some(Pos(i, k)))
      else Scan(hs, req, i, k + 1, best)
  }

  /** A VM_BASE_AUTO candidate: right region and long enough. */
  predicate Fits(e: Extent, req: Extent) {
    SameRegion(e, req) && e.length >= req.length
  }

  predicate Seen(p: Pos, i: nat, k: nat) {
    Before(p, Pos(i, k))
  }

  /** best is what the search may hold after the positions before (i, k): a shortest fitting
      extent, the earliest among equals, or some unfitting one when none fits. */
  ghost predicate BestSoFar(hs: seq<Hdr>, req: Extent, i: nat, k: nat, best: Option<Pos>) {
    && (best.Some? ==> ValidPos(hs, best.value) && Seen(best.value, i, k) && SameRegion(At(hs, best.value), req))
    && forall p :: ValidPos(hs, p) && Seen(p, i, k) && Fits(At(hs, p), req) ==>
         && best.Some?
         && Fits(At(hs, best.value), req)
         && (At(hs, best.value).length < At(hs, p).length
             || (At(hs, best.value).length == At(hs, p).length && !Before(p, best.value)))
  }

  /** A request without a fixed base gets a minimum-length fitting extent of its region, the
      first such in list order, whenever there is one. */
  lemma {:induction false} ScanFindsBest(hs: seq<Hdr>, req: Extent, i: nat, k: nat, best: Option<Pos>)
    requires req.base == BASE_AUTO
    requires i <= |hs| && (i < |hs| ==> k <= |hs[i].busy|) && (i == |hs| ==> k == 0)
    requires BestSoFar(hs, req, i, k, best)
    ensures BestSoFar(hs, req, |hs|, 0, Scan(hs, req, i, k, best))
    decreases |hs| - i, if i < |hs| then |hs[i].busy| - k else 0
  {
    if i < |hs| {
      if k == |hs[i].busy| {
        assert forall p :: ValidPos(hs, p) ==> (Seen(p, i + 1, 0) <==> Seen(p, i, k));
        ScanFindsBest(hs, req, i + 1, 0, best);
      } else {
        var c := hs[i].busy[k];
        var best' := if SameRegion(c, req) && (best.None? || Improves(At(hs, best.value), c, req))
                     then Some(Pos(i, k)) else best;
        assert At(hs, Pos(i, k)) == c;
        assert forall p :: ValidPos(hs, p) ==> (Seen(p, i, k + 1) <==> Seen(p, i, k) || p == Pos(i, k));
        ScanFindsBest(hs, req, i, k + 1, best');
      }
    }
  }

  predicate Hit(hs: seq<Hdr>, p: Pos, req: Extent)
    requires ValidPos(hs, p)
  {
    var e := At(hs, p);
    InRange(e.base, e.length, req.base, req.length)
  }

  /** A request with a fixed base gets the first extent whose range test succeeds. */
  lemma {:induction false} ScanFindsFirst(hs: seq<Hdr>, req: Extent, i: nat, k: nat)
    requires req.base != BASE_AUTO
    requires i <= |hs| && (i < |hs| ==> k <= |hs[i].busy|) && (i == |hs| ==> k == 0)
    ensures var r := Scan(hs, req, i, k, None);
            && (r.Some? ==> Hit(hs, r.value, req) && !Seen(r.value, i, k))
            && (forall p :: ValidPos(hs, p) && !Seen(p, i, k) && Hit(hs, p, req) ==> r.Some? && !Before(p, r.value))
    decreases |hs| - i, if i < |hs| then |hs[i].busy| - k else 0
  {
    if i < |hs| {
      if k == |hs[i].busy| {
        assert forall p :: ValidPos(hs, p) ==> (Seen(p, i + 1, 0) <==> Seen(p, i, k));
        ScanFindsFirst(hs, req, i + 1, 0);
      } else if !Hit(hs, Pos(i, k), req) {
        assert forall p :: ValidPos(hs, p) ==> (Seen(p, i, k + 1) <==> Seen(p, i, k) || p == Pos(i, k));
        ScanFindsFirst(hs, req, i, k + 1);
      }
    }
  }

  /** The list after the extent at p is taken: its slot becomes free and its header moves first. */
  function TakeAt(hs: seq<Hdr>, p: Pos): seq<Hdr>
    requires ValidPos(hs, p)
  {
    var h := hs[p.hdr];
    var h' := Hdr(h.cap, h.avail + 1, RemoveAt(h.busy, p.idx));
    [h'] + hs[..p.hdr] + hs[p.hdr + 1..]
  }

  datatype ExtractResult = ExtractResult(hdrs: seq<Hdr>, status: Status, ext: Extent)

  function Extracted(hs: seq<Hdr>, req: Extent): ExtractResult {
    if req.length == 0 then ExtractResult(hs, FAIL, req)
    else
      var best := Scan(hs, req, 0, 0, None);
      if best.None? || At(hs, best.value).length < req.length then ExtractResult(hs, FAIL, req)
      else ExtractResult(TakeAt(hs, best.value), OK, At(hs, best.value))
  }

  /** Taking an extent removes exactly its addresses from the map and frees a slot in the
      header that is first from then on. */
  lemma TakeRemovesExactly(hs: seq<Hdr>, p: Pos)
    requires ListOk(hs) && ValidPos(hs, p)
    ensures var hs' := TakeAt(hs, p);
            && ListOk(hs')
            && WellFormed(At(hs, p))
            && |hs'| == |hs| && hs'[0].avail > 0
            && AvailSum(hs') == AvailSum(hs) + 1
            && forall a: int, q :: Total(hs', a, q) == Total(hs, a, q) - Cov(At(hs, p), a, q)
  {
    var hs' := TakeAt(hs, p);
    var h := hs[p.hdr];
    assert HdrOk(h);
    RemoveKeeps(h.busy, p.idx);
    assert forall i :: 0 < i < |hs'| ==> hs'[i] == hs[if i <= p.hdr then i - 1 else i];
    assert hs' == [hs'[0]] + (hs[..p.hdr] + hs[p.hdr + 1..]);
    forall a: int, q ensures Total(hs', a, q) == Total(hs, a, q) - Cov(At(hs, p), a, q) {
      TotalSplit(hs, p.hdr, a, q);
      CountRemove(h.busy, p.idx, a, q);
      TotalConcat(hs[..p.hdr], hs[p.hdr + 1..], a, q);
    }
    AvailUpdate(hs, p.hdr, h);
    AvailConcat(hs[..p.hdr], hs[p.hdr + 1..]);
  }

  /** What a successful extraction returns and leaves behind. */
  lemma ExtractMoves(hs: seq<Hdr>, req: Extent)
    requires ListOk(hs) && Extracted(hs, req).status == OK
    ensures var r := Extracted(hs, req);
            && ListOk(r.hdrs)
            && WellFormed(r.ext) && r.ext.length >= req.length > 0
            && r.hdrs != [] && r.hdrs[0].avail > 0
            && AvailSum(r.hdrs) == AvailSum(hs) + 1
            && (exists p :: ValidPos(hs, p) && r.ext == At(hs, p))
            && (req.base != BASE_AUTO ==> InRange(r.ext.base, r.ext.length, req.base, req.length))
            && (req.base == BASE_AUTO ==> SameRegion(r.ext, req))
            && forall a: int, q :: Total(r.hdrs, a, q) == Total(hs, a, q) - Cov(r.ext, a, q)
  {
    var p := Scan(hs, req, 0, 0, None).value;
    TakeRemovesExactly(hs, p);
    if req.base == BASE_AUTO {
      ScanFindsBest(hs, req, 0, 0, None);
    } else {
      ScanFindsFirst(hs, req, 0, 0);
    }
  }

  /** Best fit, stated on the result of the extraction. */
  lemma ExtractIsBestFit(hs: seq<Hdr>, req: Extent)
    requires req.base == BASE_AUTO && 0 < req.length
    ensures Extracted(hs, req).status == OK <==> exists p :: ValidPos(hs, p) && Fits(At(hs, p), req)
    ensures Extracted(hs, req).status == OK ==>
              && Fits(Extracted(hs, req).ext, req)
              && forall p :: ValidPos(hs, p) && Fits(At(hs, p), req) ==>
                   Extracted(hs, req).ext.length <= At(hs, p).length
  {
    ScanFindsBest(hs, req, 0, 0, None);
    var best := Scan(hs, req, 0, 0, None);
    assert forall p :: ValidPos(hs, p) ==> Seen(p, |hs|, 0);
    if best.Some? && At(hs, best.value).length >= req.length {
      assert Fits(At(hs, best.value), req);
    }
  }

  /** A fixed-base request that lies in some extent and does not wrap is always served. */
  lemma ExtractFindsContaining(hs: seq<Hdr>, req: Extent, i: nat, k: nat)
    requires ListOk(hs) && req.base != BASE_AUTO && 0 < req.length && req.base + req.length <= TWO64
    requires i < |hs| && k < |hs[i].busy| && Contains(hs[i].busy[k], req.base, req.length)
    ensures Extracted(hs, req).status == OK
    ensures Contains(Extracted(hs, req).ext, req.base, req.length)
  {
    assert HdrOk(hs[i]);
    assert WellFormed(hs[i].busy[k]);
    InRangeExact(hs[i].busy[k], req.base, req.length);
    ScanFindsFirst(hs, req, 0, 0);
    assert ValidPos(hs, Pos(i, k)) && Hit(hs, Pos(i, k), req);
    var p := Scan(hs, req, 0, 0, None).value;
    assert HdrOk(hs[p.hdr]);
    InRangeExact(At(hs, p), req.base, req.length);
  }

  /** The insertions that follow an extraction are guaranteed a slot: inserting any extent
      right after a successful extraction cannot report VM_NOMEM. */
  lemma InsertAfterExtract(hs: seq<Hdr>, req: Extent, ext: Extent)
    requires ListOk(hs) && Extracted(hs, req).status == OK && WellFormed(ext)
    ensures Inserted(Extracted(hs, req).hdrs, ext).1 == OK
  {
    ExtractMoves(hs, req);
    InsertStatus(Extracted(hs, req).hdrs, ext);
  }

  // ---------------------------------------------------------------- the methods

  /** The walk over busy_ext for the first extent that ext can be joined to. */
  method FindJoin(busy: seq<Extent>, ext: Extent) returns (k: nat)
    ensures k == FirstJoin(busy, ext, 0)
  {
    k := 0;
    while k < |busy| && !Joinable(ext, busy[k])
      invariant 0 <= k <= |busy|
      invariant FirstJoin(busy, ext, 0) == FirstJoin(busy, ext, k)
    {
      k := k + 1;
    }
  }

  /** The walk over the headers: the first extent ext can be joined to, or failing that the
      header with the least positive number of free slots. */
  method FindHeader(hs: seq<Hdr>, ext: Extent) returns (i: nat, k: nat, f: nat)
    ensures i == FirstJoinHdr(hs, ext, 0)
    ensures i < |hs| ==> k == FirstJoin(hs[i].busy, ext, 0)
    ensures i == |hs| > 0 ==> f == Pick(hs, |hs|)
  {
    i, k, f := 0, 0, 0;
    while i < |hs|
      invariant 0 <= i <= |hs|
      invariant FirstJoinHdr(hs, ext, 0) == FirstJoinHdr(hs, ext, i)
      invariant hs != [] ==> f == Pick(hs, i)
    {
      var hdr := hs[i];
      if (hdr.avail > 0 && hdr.avail < hs[f].avail) || hs[f].avail == 0 {
        f := i;
      }
      k := FindJoin(hdr.busy, ext);
      if k < |hdr.busy| {
        return;
      }
      i := i + 1;
    }
  }

  /** Joins ext to busy[k] and runs the merge loop over the extents after it. */
  method JoinAndMerge(busy: seq<Extent>, ext: Extent, k: nat) returns (r: seq<Extent>)
    requires k < |busy|
    ensures r == JoinAt(busy, ext, k)
  {
    var c := Join(ext, busy[k]);
    r := busy[k := c];
    var j := k + 1;
    while j < |r|
      invariant k < j <= |r| && r == busy[k := c]
      invariant FirstMerge(busy, c, k + 1) == FirstMerge(busy, c, j)
    {
      if Joinable(r[j], c) {
        r := RemoveAt(r, j)[k := Join(r[j], c)];
        assert r == RemoveAt(busy, j)[k := Join(busy[j], c)];
        return;  // the removed node is now the tail of avail_ext: its next is NULL
      }
      j := j + 1;
    }
  }

  class ExtentList {
    var hdrs: seq<Hdr>

    constructor ()
      ensures hdrs == []
    {
      hdrs := [];
    }

    /** vm_extent_header_init followed by linked_list_add_tail. */
    method AddHeader(cap: nat)
      modifies this
      ensures hdrs == old(hdrs) + [Hdr(cap, cap, [])]
    {
      hdrs := hdrs + [Hdr(cap, cap, [])];
    }

    method Insert(ext: Extent) returns (status: Status)
      modifies this
      ensures (hdrs, status) == Inserted(old(hdrs), ext)
    {
      if !RegionOk(ext.flags) {
        return FAIL;
      }
      if ext.length == 0 {
        return NOENT;
      }
      var i, k, f := FindHeader(hdrs, ext);
      if i < |hdrs| {
        var hdr := hdrs[i];
        var busy := JoinAndMerge(hdr.busy, ext, k);
        hdrs := hdrs[i := Hdr(hdr.cap, hdr.avail + |hdr.busy| - |busy|, busy)];
        return OK;
      }
      if hdrs != [] && hdrs[f].avail > 0 {
        var h := hdrs[f];
        hdrs := hdrs[f := Hdr(h.cap, h.avail - 1, h.busy + [ext])];
        return OK;
      }
      return NOMEM;
    }

    method Extract(req: Extent) returns (status: Status, ext: Extent)
      modifies this
      ensures ExtractResult(hdrs, status, ext) == Extracted(old(hdrs), req)
    {
      if req.length == 0 {
        return FAIL, req;
      }
      var best: Option<Pos> := None;
      var i, found := 0, false;
      while i < |hdrs| && !found
        invariant 0 <= i <= |hdrs| && hdrs == old(hdrs)
        invariant best.Some? ==> ValidPos(hdrs, best.value)
        invariant Scan(hdrs, req, 0, 0, None) == if found then best else Scan(hdrs, req, i, 0, best)
        decreases |hdrs| - i, if found then 0 else 1
      {
        var k := 0;
        while k < |hdrs[i].busy|
          invariant 0 <= i < |hdrs| && 0 <= k <= |hdrs[i].busy| && hdrs == old(hdrs)
          invariant best.Some? ==> ValidPos(hdrs, best.value)
          invariant !found && Scan(hdrs, req, 0, 0, None) == Scan(hdrs, req, i, k, best)
          decreases |hdrs[i].busy| - k, if best.None? then 1 else 0
        {
          var c := hdrs[i].busy[k];
          if req.base != BASE_AUTO {
            if InRange(c.base, c.length, req.base, req.length) {
              found, best := true, Some(Pos(i, k));
              break;
            }
          } else if SameRegion(c, req) {
            if best.None? {
              best := Some(Pos(i, k));
              continue;  // looks at the same extent once more
            }
            if Improves(At(hdrs, best.value), c, req) {
              best := Some(Pos(i, k));
            }
          }
          k := k + 1;
        }
        if !found {
          i := i + 1;
        }
      }
      if best.None? || At(hdrs, best.value).length < req.length {
        return FAIL, req;
      }
      ext := At(hdrs, best.value);
      hdrs := TakeAt(hdrs, best.value);
      return OK, ext;
    }

    /** vm_extent_avail: counts free slots until min of them are found (0: counts all). */
    method Avail(min: nat) returns (slots: nat)
      ensures slots <= AvailSum(hdrs)
      ensures min == 0 ==> slots == AvailSum(hdrs)
      ensures min <= slots <==> min <= AvailSum(hdrs)
    {
      slots := 0;
      var i := 0;
      while i < |hdrs|
        invariant 0 <= i <= |hdrs| && slots + AvailSum(hdrs[i..]) == AvailSum(hdrs)
      {
        assert hdrs[i..][1..] == hdrs[i + 1..];
        slots := slots + hdrs[i].avail;
        i := i + 1;
        if min != 0 && min <= slots {
          break;
        }
      }
    }

    /** vm_extent_joinable. */
    method CanTake(ext: Extent) returns (joinable: bool)
      ensures joinable == JoinableList(hdrs, ext)
    {
      joinable := false;
      var i := 0;
      while i < |hdrs|
        invariant 0 <= i <= |hdrs|
        invariant joinable <==> exists n :: 0 <= n < i && FirstJoin(hdrs[n].busy, ext, 0) < |hdrs[n].busy|
      {
        var k := 0;
        ghost var before := joinable;
        while k < |hdrs[i].busy|
          invariant 0 <= k <= |hdrs[i].busy|
          invariant joinable == before
          invariant forall n :: 0 <= n < k ==> !Joinable(ext, hdrs[i].busy[n])
        {
          if Joinable(ext, hdrs[i].busy[k]) {
            joinable := true;
            break;
          }
          k := k + 1;
        }
        i := i + 1;
      }
    }
  }
}
