/** The device tree (kernel/devmgr.c): the search for a device by name and index, and the removal
    of a device with everything below it. Both walk the tree with an explicit stack of
    DEVMGR_SRCH_STACK entries instead of recursion. */
module DeviceTrees {
  import opened Sequences

  /** struct device_node. The list of children is a sequence; linked_list_first, _next and
      _remove on it are First, After and Remove. */
  class Device {
    var name: string
    var index: nat
    var parent: Device?
    var children: seq<Device>

    constructor (name: string, index: nat)
      ensures this.name == name && this.index == index && parent == null && children == []
    {
      this.name, this.index, parent, children := name, index, null, [];
    }
  }

  function First(s: seq<Device>): Device? {
    if s == [] then null else s[0]
  }

  function After(s: seq<Device>, d: Device): Device? {
    if s == [] then null else if s[0] == d then First(s[1..]) else After(s[1..], d)
  }

  function Remove(s: seq<Device>, d: Device): seq<Device> {
    if s == [] then [] else if s[0] == d then s[1..] else [s[0]] + Remove(s[1..], d)
  }

  // ---------------------------------------------------------------- the shape of a tree

  /** A list of siblings, each with the forest below it. */
  datatype Forest = Nil | Cons(dev: Device, kids: Forest, rest: Forest)

  ghost function Roots(f: Forest): seq<Device> {
    if f.Nil? then [] else [f.dev] + Roots(f.rest)
  }

  ghost function Devs(f: Forest): set<Device> {
    if f.Nil? then {} else {f.dev} + Devs(f.kids) + Devs(f.rest)
  }

  /** No device stands twice in the forest. */
  ghost predicate Distinct(f: Forest) {
    f.Cons? ==>
      && f.dev !in Devs(f.kids) + Devs(f.rest) && Devs(f.kids) !! Devs(f.rest)
      && Distinct(f.kids) && Distinct(f.rest)
  }

  /** The devices of f are linked as f says, the topmost with parent owner. */
  ghost predicate Linked(f: Forest, owner: Device)
    reads Devs(f)
  {
    f.Cons? ==>
      && f.dev.parent == owner && f.dev.children == Roots(f.kids)
      && Linked(f.kids, f.dev) && Linked(f.rest, owner)
  }

  /** The tree below owner is f. */
  ghost predicate Tree(owner: Device, f: Forest)
    reads owner, Devs(f)
  {
    owner !in Devs(f) && Distinct(f) && owner.children == Roots(f) && Linked(f, owner)
  }

  ghost function Height(f: Forest): nat {
    if f.Nil? then 0
    else if Height(f.rest) > Height(f.kids) + 1 then Height(f.rest) else Height(f.kids) + 1
  }

  // ---------------------------------------------------------------- orders

  /** Recursive preorder: a device before its children, siblings in order. */
  ghost function Preorder(f: Forest): seq<Device> {
    if f.Nil? then [] else [f.dev] + Preorder(f.kids) + Preorder(f.rest)
  }

  /** Preorder that goes down only while there is room for the ancestors. */
  ghost function Shallow(f: Forest, room: nat): seq<Device> {
    if f.Nil? then []
    else [f.dev] + (if room > 0 then Shallow(f.kids, room - 1) else []) + Shallow(f.rest, room)
  }

  /** Recursive postorder: a device after its children. */
  ghost function Postorder(f: Forest): seq<Device> {
    if f.Nil? then [] else Postorder(f.kids) + [f.dev] + Postorder(f.rest)
  }

  lemma {:induction false} ShallowLength(f: Forest, room: nat)
    ensures |Shallow(f, room)| <= |Preorder(f)|
    ensures |Shallow(f, room)| == |Preorder(f)| <==> Height(f) <= room + 1
    ensures |Shallow(f, room)| == |Preorder(f)| ==> Shallow(f, room) == Preorder(f)
    ensures f.Cons? ==> |Preorder(f)| > 0
  {
    if f.Cons? {
      ShallowLength(f.rest, room);
      if room > 0 {
        ShallowLength(f.kids, room - 1);
      } else if f.kids.Cons? {
        ShallowLength(f.kids, room);
      }
    }
  }

  /** A stack of room entries is enough for the whole tree exactly when it is at most
      room + 1 levels high. */
  lemma ShallowIsAllIff(f: Forest, room: nat)
    ensures Shallow(f, room) == Preorder(f) <==> Height(f) <= room + 1
  {
    ShallowLength(f, room);
  }

  ghost function Members(s: seq<Device>): set<Device> {
    set d | d in s
  }

  lemma MembersJoin(a: seq<Device>, b: seq<Device>, c: seq<Device>)
    ensures Members(a + b + c) == Members(a) + Members(b) + Members(c)
  {
  }

  lemma {:induction false} OrdersHaveAll(f: Forest)
    ensures Members(Preorder(f)) == Members(Postorder(f)) == Devs(f)
    ensures |Postorder(f)| == |Preorder(f)|
  {
    if f.Cons? {
      OrdersHaveAll(f.kids);
      OrdersHaveAll(f.rest);
      MembersJoin([f.dev], Preorder(f.kids), Preorder(f.rest));
      MembersJoin(Postorder(f.kids), [f.dev], Postorder(f.rest));
    }
  }

  /** In a tree, postorder lists every device once. */
  lemma {:induction false} PostorderOnce(f: Forest)
    requires Distinct(f)
    ensures AllDifferent(Postorder(f))
  {
    if f.Cons? {
      PostorderOnce(f.kids);
      PostorderOnce(f.rest);
      OrdersHaveAll(f.kids);
      OrdersHaveAll(f.rest);
      OnceAround(Postorder(f.kids), f.dev, Postorder(f.rest));
    }
  }

  lemma OnceAround(a: seq<Device>, d: Device, b: seq<Device>)
    requires AllDifferent(a) && AllDifferent(b)
    requires d !in Members(a) && d !in Members(b) && Members(a) !! Members(b)
    ensures AllDifferent(a + [d] + b)
  {
    var s := a + [d] + b;
    forall i, j | 0 <= i < j < |s| ensures s[i] != s[j] {
      if i < |a| < j {
        assert s[i] in Members(a) && s[j] in Members(b);
      } else if i == |a| {
        assert s[j] in Members(b);
      } else if j == |a| {
        assert s[i] in Members(a);
      } else if |a| < i {
        assert s[i] == b[i - |a| - 1] && s[j] == b[j - |a| - 1];
      }
    }
  }

  /** d is below a: inside the forest of a's children. */
  ghost predicate Below(f: Forest, a: Device, d: Device) {
    f.Cons? && ((f.dev == a && d in Devs(f.kids)) || Below(f.kids, a, d) || Below(f.rest, a, d))
  }

  lemma {:induction false} BelowIn(f: Forest, a: Device, d: Device)
    requires Below(f, a, d)
    ensures a in Devs(f) && d in Devs(f)
  {
    if Below(f.kids, a, d) {
      BelowIn(f.kids, a, d);
    } else if Below(f.rest, a, d) {
      BelowIn(f.rest, a, d);
    }
  }

  function Position(s: seq<Device>, d: Device): (i: nat)
    ensures i <= |s| && (i < |s| ==> s[i] == d) && (d in s ==> i < |s|)
  {
    if s == [] || s[0] == d then 0 else 1 + Position(s[1..], d)
  }

  lemma {:induction false} PositionAppend(s: seq<Device>, t: seq<Device>, d: Device)
    ensures Position(s + t, d) == if d in s then Position(s, d) else |s| + Position(t, d)
  {
    if s == [] {
      assert s + t == t;
    } else if s[0] != d {
      PositionAppend(s[1..], t, d);
      assert (s + t)[1..] == s[1..] + t;
    }
  }

  /** Postorder puts every device before all the devices it is below. */
  lemma {:induction false} ChildrenFirst(f: Forest, a: Device, d: Device)
    requires Distinct(f) && Below(f, a, d)
    ensures Position(Postorder(f), d) < Position(Postorder(f), a) < |Postorder(f)|
  {
    OrdersHaveAll(f.kids);
    OrdersHaveAll(f.rest);
    var k, r := Postorder(f.kids), Postorder(f.rest);
    assert Postorder(f) == k + [f.dev] + r;
    MembersAre(k);
    MembersAre(r);
    hide Position, Postorder, Members;
    PositionAround(k, f.dev, r, d);
    PositionAround(k, f.dev, r, a);
    if f.dev == a && d in Devs(f.kids) {
    } else if Below(f.kids, a, d) {
      BelowIn(f.kids, a, d);
      ChildrenFirst(f.kids, a, d);
    } else {
      BelowIn(f.rest, a, d);
      ChildrenFirst(f.rest, a, d);
    }
  }

  lemma MembersAre(s: seq<Device>)
    ensures forall i :: 0 <= i < |s| ==> s[i] in Members(s)
    ensures forall d :: d in Members(s) ==> d in s
  {
  }

  lemma {:induction false} PositionAround(k: seq<Device>, x: Device, r: seq<Device>, d: Device)
    ensures Position(k + [x] + r, d) ==
              if d in k then Position(k, d) else if d == x then |k| else |k| + 1 + Position(r, d)
    ensures d in k ==> Position(k, d) < |k|
  {
    PositionAppend(k + [x], r, d);
    PositionAppend(k, [x], d);
    assert d in k + [x] <==> d in k || d == x;
    assert Position([x], d) == if d == x then 0 else 1;
  }

  // ---------------------------------------------------------------- the search

  predicate Matches(d: Device, name: string, index: nat)
    reads d
  {
    d.index == index && d.name == name
  }

  /** The first device of a list with this name and index. */
  function FirstMatch(s: seq<Device>, name: string, index: nat): Device?
    reads s
  {
    if s == [] then null else if Matches(s[0], name, index) then s[0] else FirstMatch(s[1..], name, index)
  }

  /** FirstMatch means what it says. */
  lemma {:induction false} FirstMatchIs(s: seq<Device>, name: string, index: nat)
    ensures FirstMatch(s, name, index) == null <==> forall d :: d in s ==> !Matches(d, name, index)
    ensures FirstMatch(s, name, index) != null ==>
              exists i :: 0 <= i < |s| && s[i] == FirstMatch(s, name, index) && Matches(s[i], name, index)
                && forall j :: 0 <= j < i ==> !Matches(s[j], name, index)
  {
    if s != [] && !Matches(s[0], name, index) {
      FirstMatchIs(s[1..], name, index);
      if FirstMatch(s[1..], name, index) != null {
        var i :| 0 <= i < |s[1..]| && s[1..][i] == FirstMatch(s[1..], name, index) && Matches(s[1..][i], name, index)
                 && forall j :: 0 <= j < i ==> !Matches(s[1..][j], name, index);
        assert s[i + 1] == s[1..][i];
        forall j | 0 <= j < i + 1 ensures !Matches(s[j], name, index) {
          assert j > 0 ==> s[j] == s[1..][j - 1];
        }
      }
    }
  }

  lemma {:induction false} FirstMatchSkips(s: seq<Device>, t: seq<Device>, name: string, index: nat)
    requires forall d :: d in s ==> !Matches(d, name, index)
    ensures FirstMatch(s + t, name, index) == FirstMatch(t, name, index)
  {
    if s == [] {
      assert s + t == t;
    } else {
      FirstMatchSkips(s[1..], t, name, index);
      assert (s + t)[1..] == s[1..] + t && (s + t)[0] == s[0];
    }
  }

  lemma {:induction false} MatchInTree(f: Forest, name: string, index: nat)
    ensures FirstMatch(Preorder(f), name, index) == null <==> forall d :: d in Devs(f) ==> !Matches(d, name, index)
  {
    OrdersHaveAll(f);
    FirstMatchIs(Preorder(f), name, index);
    assert forall d :: d in Devs(f) ==> d in Members(Preorder(f));
    assert forall d :: d in Preorder(f) ==> d in Members(Preorder(f));
  }

  /** The next sibling. */
  function Next(d: Device): Device?
    reads d, d.parent
  {
    if d.parent == null then null else After(d.parent.children, d)
  }

  lemma {:induction false} AfterSkips(s: seq<Device>, d: Device, t: seq<Device>)
    requires d !in s
    ensures After(s + [d] + t, d) == First(t)
  {
    var all := s + [d] + t;
    if s == [] {
      assert all[1..] == t;
    } else {
      AfterSkips(s[1..], d, t);
      assert all[1..] == s[1..] + [d] + t && all[0] == s[0];
    }
  }

  /** A place in the walk: below owner, the siblings passed and those to come. */
  datatype Place = Place(owner: Device, passed: seq<Device>, todo: Forest)

  ghost predicate PlaceOk(p: Place)
    reads p.owner, Devs(p.todo)
  {
    && p.owner.children == p.passed + Roots(p.todo) && Linked(p.todo, p.owner)
    && Distinct(p.todo) && forall d :: d in p.passed ==> d !in Devs(p.todo)
  }

  ghost function Head(p: Place): Device? {
    if p.todo.Nil? then null else p.todo.dev
  }

  /** The place one sibling further. */
  ghost function Onward(p: Place): Place
    requires p.todo.Cons?
  {
    Place(p.owner, p.passed + [p.todo.dev], p.todo.rest)
  }

  /** The place at the first child. */
  ghost function Inward(p: Place): Place
    requires p.todo.Cons?
  {
    Place(p.todo.dev, [], p.todo.kids)
  }

  lemma RootsAreDevs(f: Forest)
    ensures First(Roots(f)) == if f.Nil? then null else f.dev
    ensures Roots(f) == [] <==> f.Nil?
  {
  }

  lemma OnwardOk(p: Place)
    requires PlaceOk(p) && p.todo.Cons?
    ensures PlaceOk(Onward(p)) && Next(p.todo.dev) == Head(Onward(p))
  {
    AfterSkips(p.passed, p.todo.dev, Roots(p.todo.rest));
    assert p.passed + Roots(p.todo) == p.passed + [p.todo.dev] + Roots(p.todo.rest);
    RootsAreDevs(p.todo.rest);
  }

  lemma InwardOk(p: Place)
    requires PlaceOk(p) && p.todo.Cons?
    ensures PlaceOk(Inward(p)) && First(p.todo.dev.children) == Head(Inward(p))
    ensures |p.todo.dev.children| > 0 <==> p.todo.kids.Cons?
  {
    RootsAreDevs(p.todo.kids);
  }

  /** What the walk still has to visit: the current siblings, then on every stack entry the
      siblings behind it. */
  ghost function Pending(stack: seq<Place>): seq<Device>
    requires |stack| <= 128
  {
    if stack == [] then []
    else
      var p := stack[|stack| - 1];
      (if p.todo.Cons? then Shallow(p.todo.rest, 128 - (|stack| - 1)) else []) + Pending(stack[..|stack| - 1])
  }

  /** The walk of a forest all, having seen only devices that do not match. */
  ghost predicate Walking(all: Forest, places: seq<Place>, cur: Place, seen: seq<Device>)
  {
    && |places| <= 128
    && Shallow(all, 128) == seen + Shallow(cur.todo, 128 - |places|) + Pending(places)
  }

  lemma Regroup(a: seq<Device>, b: seq<Device>, c: seq<Device>)
    ensures a + (b + c) == (a + b) + c
  {
  }

  lemma ShallowCons(f: Forest, room: nat)
    requires f.Cons? && room > 0
    ensures Shallow(f, room) == [f.dev] + Shallow(f.kids, room - 1) + Shallow(f.rest, room)
  {
  }

  lemma ShallowNil(room: nat)
    ensures Shallow(Nil, room) == []
  {
  }

  lemma {:induction false} PendingPush(places: seq<Place>, p: Place)
    requires |places| < 128 && p.todo.Cons?
    ensures Pending(places + [p]) == Shallow(p.todo.rest, 128 - |places|) + Pending(places)
  {
    hide Shallow;
    assert (places + [p])[..|places|] == places;
  }

  lemma {:induction false} WalkIn(all: Forest, places: seq<Place>, cur: Place, seen: seq<Device>)
    requires Walking(all, places, cur, seen) && cur.todo.Cons? && |places| < 128
    ensures Walking(all, places + [cur], Inward(cur), seen + [cur.todo.dev])
    ensures ToGo(places, cur) == 1 + ToGo(places + [cur], Inward(cur))
  {
    hide Shallow, Pending;
    PendingPush(places, cur);
    var n, dev := |places|, cur.todo.dev;
    var a, r, t := Shallow(cur.todo.kids, 127 - n), Shallow(cur.todo.rest, 128 - n), Pending(places);
    ShallowCons(cur.todo, 128 - n);
    assert seen + ([dev] + a + r) + t == (seen + [dev]) + a + (r + t);
  }

  lemma {:induction false} WalkOn(all: Forest, places: seq<Place>, cur: Place, seen: seq<Device>)
    requires Walking(all, places, cur, seen) && cur.todo.Cons? && (|places| == 128 || cur.todo.kids.Nil?)
    ensures Walking(all, places, Onward(cur), seen + [cur.todo.dev])
    ensures ToGo(places, cur) == 1 + ToGo(places, Onward(cur))
  {
    var n, dev := |places|, cur.todo.dev;
    var r, t := Shallow(cur.todo.rest, 128 - n), Pending(places);
    assert Shallow(cur.todo, 128 - n) == [dev] + r;
    hide Shallow, Pending;
    assert seen + ([dev] + r) + t == (seen + [dev]) + r + t;
  }

  lemma {:induction false} WalkOut(all: Forest, places: seq<Place>, cur: Place, seen: seq<Device>)
    requires Walking(all, places, cur, seen) && cur.todo.Nil? && |places| > 0
    requires places[|places| - 1].todo.Cons?
    ensures Walking(all, places[..|places| - 1], Onward(places[|places| - 1]), seen)
    ensures ToGo(places, cur) == ToGo(places[..|places| - 1], Onward(places[|places| - 1]))
  {
    hide Shallow, Pending;
    var n := |places| - 1;
    assert places[..n] + [places[n]] == places;
    PendingPush(places[..n], places[n]);
    ShallowNil(128 - |places|);
    var r, t := Shallow(places[n].todo.rest, 128 - n), Pending(places[..n]);
    assert seen + [] + (r + t) == seen + r + t;
  }

  ghost function ToGo(places: seq<Place>, cur: Place): nat {
    if |places| <= 128 then |Shallow(cur.todo, 128 - |places|)| + |Pending(places)| else 0
  }

  ghost predicate StackOk(places: seq<Place>, stack: seq<Device>)
    reads (set p | p in places :: p.owner), (set p, d | p in places && d in Devs(p.todo) :: d)
  {
    |places| == |stack| && forall i :: 0 <= i < |places| ==>
      PlaceOk(places[i]) && places[i].todo.Cons? && stack[i] == places[i].todo.dev
  }

  lemma {:induction false} WalkStarts(root: Device, f: Forest)
    requires Tree(root, f)
    ensures PlaceOk(Place(root, [], f)) && StackOk([], []) && Walking(f, [], Place(root, [], f), [])
    ensures First(root.children) == Head(Place(root, [], f))
  {
    RootsAreDevs(f);
  }

  lemma {:induction false} WalkFinds(all: Forest, places: seq<Place>, cur: Place, seen: seq<Device>, name: string,
                                     index: nat)
    requires Walking(all, places, cur, seen) && cur.todo.Cons? && Matches(cur.todo.dev, name, index)
    requires forall d :: d in seen ==> !Matches(d, name, index)
    ensures FirstMatch(Shallow(all, 128), name, index) == cur.todo.dev
  {
    hide Shallow, Pending;
    var s, t := Shallow(cur.todo, 128 - |places|), Pending(places);
    ShallowFirst(cur.todo, 128 - |places|);
    Regroup(seen, s, t);
    FirstMatchSkips(seen, s + t, name, index);
  }

  lemma ShallowFirst(f: Forest, room: nat)
    requires f.Cons?
    ensures |Shallow(f, room)| > 0 && Shallow(f, room)[0] == f.dev
  {
  }

  lemma {:induction false} ShallowInTree(f: Forest, room: nat)
    ensures forall d :: d in Shallow(f, room) ==> d in Devs(f)
  {
    if f.Cons? {
      ShallowInTree(f.rest, room);
      if room > 0 {
        ShallowInTree(f.kids, room - 1);
      }
    }
  }

  lemma FoundInTree(f: Forest, room: nat, name: string, index: nat)
    ensures var found := FirstMatch(Shallow(f, room), name, index);
            found != null ==> found in Devs(f) && Matches(found, name, index)
  {
    hide Shallow, Devs, FirstMatch, Matches;
    ShallowInTree(f, room);
    FirstMatchIs(Shallow(f, room), name, index);
  }

  lemma {:induction false} WalkEnds(all: Forest, places: seq<Place>, cur: Place, seen: seq<Device>, name: string,
                                    index: nat)
    requires Walking(all, places, cur, seen) && cur.todo.Nil? && places == []
    requires forall d :: d in seen ==> !Matches(d, name, index)
    ensures FirstMatch(Shallow(all, 128), name, index) == null
  {
    FirstMatchSkips(seen, [], name, index);
    assert Shallow(all, 128) == seen + [];
  }

  /** devmgr_dev_get_by_name, over the tree f below the root bus: the first match in recursive
      preorder among the devices the stack has room to reach; in a tree of at most 129 levels
      that is every device. It always ends. */
  method GetByName(root: Device, name: string, index: nat, ghost f: Forest) returns (found: Device?)
    requires Tree(root, f)
    ensures found == FirstMatch(Shallow(f, 128), name, index)
    ensures Height(f) <= 129 ==> found == FirstMatch(Preorder(f), name, index)
    ensures found != null ==> found in Devs(f) && found.name == name && found.index == index
    ensures Height(f) <= 129 ==>
              (found == null <==> forall d :: d in Devs(f) ==> !(d.name == name && d.index == index))
  {
    hide Linked, Distinct, Shallow, Pending, Walking, ToGo, Inward, Onward, Roots, FirstMatch, Preorder, Devs, After;
    var node: Device?, stack: seq<Device> := First(root.children), [];
    ghost var cur: Place, places: seq<Place>, seen: seq<Device> := Place(root, [], f), [], [];
    WalkStarts(root, f);
    ShallowIsAllIff(f, 128);
    while true
      invariant PlaceOk(cur) && StackOk(places, stack) && node == Head(cur)
      invariant Walking(f, places, cur, seen) && forall d :: d in seen ==> !Matches(d, name, index)
      invariant |stack| <= 128
      decreases ToGo(places, cur), |stack|
    {
      ghost var toGo, depth := ToGo(places, cur), |stack|;
      while node != null
        invariant PlaceOk(cur) && StackOk(places, stack) && node == Head(cur)
        invariant Walking(f, places, cur, seen) && forall d :: d in seen ==> !Matches(d, name, index)
        invariant |stack| <= 128 && ToGo(places, cur) <= toGo && (ToGo(places, cur) == toGo ==> |stack| == depth)
        decreases ToGo(places, cur)
      {
        if Matches(node, name, index) {
          WalkFinds(f, places, cur, seen, name, index);
          FoundInTree(f, 128, name, index);
          MatchInTree(f, name, index);
          return node;
        }
        InwardOk(cur);
        if |node.children| > 0 {
          if |stack| < 128 {
            WalkIn(f, places, cur, seen);
            seen, places, cur := seen + [node], places + [cur], Inward(cur);
            stack, node := stack + [node], First(node.children);
            continue;
          }
        }
        WalkOn(f, places, cur, seen);
        OnwardOk(cur);
        seen, cur := seen + [node], Onward(cur);
        node := Next(node);
      }
      if |stack| > 0 {
        var top := stack[|stack| - 1];
        OnwardOk(places[|places| - 1]);
        WalkOut(f, places, cur, seen);
        cur, places := Onward(places[|places| - 1]), places[..|places| - 1];
        stack, node := stack[..|stack| - 1], Next(top);
      }
      if node == null && |stack| == 0 {
        break;
      }
    }
    WalkEnds(f, places, cur, seen, name, index);
    MatchInTree(f, name, index);
    return null;
  }

  // ---------------------------------------------------------------- the removal

  /** The forest m levels down, always at the first child. */
  ghost function Down(f: Forest, m: nat): Forest
    requires Deep(f, m)
  {
    if m == 0 then f else Down(f.kids, m - 1)
  }

  ghost predicate Deep(f: Forest, m: nat) {
    m > 0 ==> f.Cons? && Deep(f.kids, m - 1)
  }

  /** The device whose children the walk is looking at. */
  ghost function Above(f: Forest, m: nat, owner: Device): Device
    requires Deep(f, m)
  {
    if m == 0 then owner else Above(f.kids, m - 1, f.dev)
  }

  ghost function Siblings(f: Forest): nat {
    if f.Nil? then 0 else 1 + Siblings(f.rest)
  }

  ghost function Nth(f: Forest, k: nat): Forest
    requires k < Siblings(f)
    ensures Nth(f, k).Cons?
  {
    if k == 0 then f else Nth(f.rest, k - 1)
  }

  ghost function DropNth(f: Forest, k: nat): Forest
    requires k < Siblings(f)
  {
    if k == 0 then f.rest else f.(rest := DropNth(f.rest, k - 1))
  }

  /** The forest without sibling k among those m levels down. */
  ghost function DropAt(g: Forest, m: nat, k: nat): Forest
    requires Deep(g, m) && k < Siblings(Down(g, m))
  {
    if m == 0 then DropNth(g, k) else g.(kids := DropAt(g.kids, m - 1, k))
  }

  ghost function Size(f: Forest): nat {
    if f.Nil? then 0 else 1 + Size(f.kids) + Size(f.rest)
  }

  /** Where the walk of a removal stands, on any tree: the forest still below the device, the
      depth of the stack, and how many siblings it has passed over at the current level. */
  datatype Walk = Walk(g: Forest, depth: nat, passed: nat)

  ghost predicate Sound(w: Walk) {
    && w.depth <= 128 && Deep(w.g, w.depth) && w.passed <= Siblings(Down(w.g, w.depth))
    && (w.passed > 0 ==> w.depth == 128)
  }

  ghost predicate Done(w: Walk) {
    Sound(w) && w.depth == 0 && w.passed == Siblings(w.g)
  }

  /** The walk is at a device, not at the end of the siblings. */
  ghost predicate AtDevice(w: Walk) {
    Sound(w) && w.passed < Siblings(Down(w.g, w.depth))
  }

  /** The device the walk is at, with what is below it and the siblings behind it. */
  ghost function Here(w: Walk): Forest
    requires AtDevice(w)
    ensures Here(w).Cons?
  {
    Nth(Down(w.g, w.depth), w.passed)
  }

  /** One step of the loops of devmgr_dev_remove: down to the first child while the stack has
      room, past a device with children when it has none, a leaf off the tree, and from the end
      of the siblings back to the device they are below. */
  ghost function WalkStep(w: Walk): Walk {
    if !Sound(w) || Done(w) then w
    else if !AtDevice(w) then Walk(w.g, w.depth - 1, 0)
    else if Here(w).kids.Cons? then
      if w.depth < 128 then Walk(w.g, w.depth + 1, 0) else w.(passed := w.passed + 1)
    else w.(g := DropAt(w.g, w.depth, w.passed))
  }

  ghost function Steps(w: Walk, n: nat): Walk
    decreases n
  {
    if n == 0 then w else Steps(WalkStep(w), n - 1)
  }

  /** The device that a step takes off the tree. */
  ghost function Removed(w: Walk): seq<Device> {
    if AtDevice(w) && Here(w).kids.Nil? then [Here(w).dev] else []
  }

  /** The devices that n steps take off the tree, in order. */
  ghost function Log(w: Walk, n: nat): seq<Device>
    decreases n
  {
    if n == 0 then [] else Removed(w) + Log(WalkStep(w), n - 1)
  }

  lemma {:induction false} OneMore(w: Walk, n: nat)
    ensures Steps(w, n + 1) == WalkStep(Steps(w, n)) && Log(w, n + 1) == Log(w, n) + Removed(Steps(w, n))
    decreases n
  {
    hide WalkStep, Removed;
    if n == 0 {
      assert Log(WalkStep(w), 0) == [] && Steps(WalkStep(w), 0) == WalkStep(w);
    } else {
      OneMore(WalkStep(w), n - 1);
      assert Removed(w) + (Log(WalkStep(w), n - 1) + Removed(Steps(w, n)))
          == Removed(w) + Log(WalkStep(w), n - 1) + Removed(Steps(w, n));
    }
  }

  /** A walk that is done stays where it is. */
  lemma {:induction false} DoneStays(w: Walk, i: nat, n: nat)
    requires Done(Steps(w, i)) && i <= n
    ensures Steps(w, n) == Steps(w, i) && Log(w, n) == Log(w, i)
    decreases n
  {
    if i < n {
      DoneStays(w, i, n - 1);
      OneMore(w, n - 1);
    }
  }

  lemma {:induction false} DownDeeper(f: Forest, m: nat)
    requires Deep(f, m)
    ensures Deep(f, m + 1) <==> Down(f, m).Cons?
    ensures Down(f, m).Cons? ==> Down(f, m + 1) == Down(f, m).kids
    ensures forall j :: 0 <= j < m ==> Deep(f, j) && Down(f, j).Cons?
    ensures Height(Down(f, m)) + m <= Height(f) || Down(f, m).Nil?
    ensures Devs(Down(f, m)) <= Devs(f)
  {
    if m > 0 {
      DownDeeper(f.kids, m - 1);
      forall j | 0 <= j < m ensures Deep(f, j) && Down(f, j).Cons? {
        if j > 0 {
          assert Deep(f.kids, j - 1) && Down(f.kids, j - 1).Cons?;
        }
      }
    }
  }

  lemma {:induction false} DropNthFacts(f: Forest, k: nat)
    requires k < Siblings(f) && Nth(f, k).kids.Nil?
    ensures Siblings(DropNth(f, k)) == Siblings(f) - 1 && Size(DropNth(f, k)) == Size(f) - 1
    ensures Height(DropNth(f, k)) <= Height(f)
    ensures Height(f) > 1 ==> Height(DropNth(f, k)) == Height(f)
  {
    if k > 0 {
      DropNthFacts(f.rest, k - 1);
    }
  }

  /** Taking off a leaf that is less than r levels down leaves a tree of more than r levels. */
  lemma {:induction false} DropAtFacts(g: Forest, m: nat, k: nat, r: nat)
    requires Deep(g, m) && k < Siblings(Down(g, m)) && Nth(Down(g, m), k).kids.Nil? && m < r
    ensures Deep(DropAt(g, m, k), m) && Siblings(Down(DropAt(g, m, k), m)) == Siblings(Down(g, m)) - 1
    ensures Size(DropAt(g, m, k)) == Size(g) - 1 && Height(DropAt(g, m, k)) <= Height(g)
    ensures Height(g) > r ==> Height(DropAt(g, m, k)) > r
  {
    if m == 0 {
      DropNthFacts(g, k);
    } else {
      DropAtFacts(g.kids, m - 1, k, r - 1);
    }
  }

  lemma {:induction false} StepIsSound(w: Walk)
    requires Sound(w)
    ensures Sound(WalkStep(w)) && Height(WalkStep(w).g) <= Height(w.g)
    ensures Height(w.g) > 129 ==> Height(WalkStep(w).g) > 129
  {
    if !Done(w) {
      DownDeeper(w.g, w.depth);
      if !AtDevice(w) {
        DownDeeper(w.g, w.depth - 1);
      } else if Here(w).kids.Nil? {
        DropAtFacts(w.g, w.depth, w.passed, 129);
      }
    }
  }

  /** On a tree of more than 129 levels no number of steps ends the walk, and more than 129
      levels are left. */
  lemma {:induction false} NeverDone(w: Walk, n: nat)
    requires Sound(w) && Height(w.g) > 129
    ensures !Done(Steps(w, n)) && Height(Steps(w, n).g) > 129
    decreases n
  {
    if n > 0 {
      StepIsSound(w);
      NeverDone(WalkStep(w), n - 1);
    }
  }

  ghost function AtEnd(w: Walk): nat
    requires Sound(w)
  {
    if Down(w.g, w.depth).Nil? then 1 else 0
  }

  /** On a tree of at most 129 levels it ends, and then nothing is left. */
  lemma {:induction false} EventuallyDone(w: Walk) returns (n: nat)
    requires Sound(w) && Height(w.g) <= 129 && w.passed == 0
    ensures Done(Steps(w, n)) && Steps(w, n).g == Nil
    decreases Size(w.g), AtEnd(w), Height(Down(w.g, w.depth))
  {
    var m := w.depth;
    DownDeeper(w.g, m);
    if Down(w.g, m).Nil? {
      if m == 0 {
        return 0;
      }
      DownDeeper(w.g, m - 1);
    } else if Down(w.g, m).kids.Nil? {
      DropAtFacts(w.g, m, 0, 129);
    }
    n := EventuallyDone(WalkStep(w));
    n := n + 1;
  }

  /** The walk of devmgr_dev_remove ends exactly on trees of at most 129 levels below the device;
      on higher ones it goes back and forth for ever. */
  lemma RemovalEndsIff(f: Forest)
    ensures (exists n: nat :: Done(Steps(Walk(f, 0, 0), n))) <==> Height(f) <= 129
  {
    if Height(f) <= 129 {
      var n := EventuallyDone(Walk(f, 0, 0));
    } else {
      forall n: nat ensures !Done(Steps(Walk(f, 0, 0), n)) {
        NeverDone(Walk(f, 0, 0), n);
      }
    }
  }

  /** Removing the leaf m levels down takes the first device off the postorder. */
  lemma {:induction false} DropLeaf(f: Forest, m: nat)
    requires Deep(f, m) && Down(f, m).Cons? && Down(f, m).kids.Nil?
    ensures Postorder(f) == [Down(f, m).dev] + Postorder(DropAt(f, m, 0))
  {
    if m > 0 {
      DropLeaf(f.kids, m - 1);
      var a, k, r := Down(f, m).dev, Postorder(DropAt(f.kids, m - 1, 0)), Postorder(f.rest);
      assert ([a] + k) + [f.dev] + r == [a] + (k + [f.dev] + r);
    }
  }

  lemma {:induction false} StepInPostorder(w: Walk)
    requires Sound(w) && Height(w.g) <= 129 && w.passed == 0
    ensures Sound(WalkStep(w)) && Height(WalkStep(w).g) <= 129 && WalkStep(w).passed == 0
    ensures Removed(w) + Postorder(WalkStep(w).g) == Postorder(w.g)
  {
    hide Postorder, Height;
    StepIsSound(w);
    DownDeeper(w.g, w.depth);
    TwoLevels(Down(w.g, w.depth));
    if AtDevice(w) && Here(w).kids.Nil? {
      DropLeaf(w.g, w.depth);
    } else {
      assert [] + Postorder(w.g) == Postorder(w.g);
    }
  }

  lemma TwoLevels(f: Forest)
    ensures f.Cons? && f.kids.Cons? ==> Height(f) >= 2
  {
  }

  lemma LogUnfolds(w: Walk, n: nat)
    requires 0 < n
    ensures Steps(w, n) == Steps(WalkStep(w), n - 1) && Log(w, n) == Removed(w) + Log(WalkStep(w), n - 1)
  {
  }

  /** Up to 129 levels no device is ever passed over, and the devices go in postorder. */
  lemma {:induction false} LogIsPostorder(w: Walk, n: nat)
    requires Sound(w) && Height(w.g) <= 129 && w.passed == 0
    ensures Log(w, n) + Postorder(Steps(w, n).g) == Postorder(w.g)
    decreases n
  {
    hide Steps, Log, WalkStep, Removed, Sound, Height, Postorder;
    if n > 0 {
      StepInPostorder(w);
      LogIsPostorder(WalkStep(w), n - 1);
      LogUnfolds(w, n);
      Regroup(Removed(w), Log(WalkStep(w), n - 1), Postorder(Steps(w, n).g));
    } else {
      StepsStart(w);
      assert [] + Postorder(w.g) == Postorder(w.g);
    }
  }

  lemma {:induction false} DropNthDevs(f: Forest, k: nat)
    requires k < Siblings(f) && Nth(f, k).kids.Nil? && Distinct(f)
    ensures Devs(DropNth(f, k)) == Devs(f) - {Nth(f, k).dev} && Nth(f, k).dev in Devs(f) && Distinct(DropNth(f, k))
  {
    if k > 0 {
      DropNthDevs(f.rest, k - 1);
    }
  }

  lemma {:induction false} DropAtDevs(f: Forest, m: nat, k: nat)
    requires Deep(f, m) && k < Siblings(Down(f, m)) && Nth(Down(f, m), k).kids.Nil? && Distinct(f)
    ensures Devs(DropAt(f, m, k)) == Devs(f) - {Nth(Down(f, m), k).dev} && Nth(Down(f, m), k).dev in Devs(f)
    ensures Distinct(DropAt(f, m, k))
  {
    if m == 0 {
      DropNthDevs(f, k);
    } else {
      DropAtDevs(f.kids, m - 1, k);
    }
  }

  lemma {:induction false} DropAtPath(f: Forest, m: nat, k: nat)
    requires Deep(f, m) && k < Siblings(Down(f, m))
    ensures Deep(DropAt(f, m, k), m) && Down(DropAt(f, m, k), m) == DropNth(Down(f, m), k)
    ensures forall j :: 0 <= j < m ==>
              && Deep(f, j) && Deep(DropAt(f, m, k), j) && Down(f, j).Cons? && Down(DropAt(f, m, k), j).Cons?
              && Down(DropAt(f, m, k), j).dev == Down(f, j).dev
  {
    if m > 0 {
      DropAtPath(f.kids, m - 1, k);
      forall j | 0 <= j < m
        ensures Deep(f, j) && Deep(DropAt(f, m, k), j) && Down(f, j).Cons? && Down(DropAt(f, m, k), j).Cons?
        ensures Down(DropAt(f, m, k), j).dev == Down(f, j).dev
      {
        if j > 0 {
          assert Down(DropAt(f.kids, m - 1, k), j - 1).dev == Down(f.kids, j - 1).dev;
        }
      }
    }
  }

  lemma {:induction false} StepTakesOff(w: Walk)
    requires Sound(w) && Distinct(w.g)
    ensures Sound(WalkStep(w)) && Distinct(WalkStep(w).g)
    ensures Devs(WalkStep(w).g) == Devs(w.g) - Members(Removed(w)) && Members(Removed(w)) <= Devs(w.g)
  {
    StepIsSound(w);
    hide Devs, Distinct, Height;
    if AtDevice(w) && Here(w).kids.Nil? {
      DropAtDevs(w.g, w.depth, w.passed);
    }
  }

  lemma MembersNone()
    ensures Members([]) == {}
  {
  }

  /** On any tree: the devices that n steps take off are those that are no longer there. */
  lemma {:induction false} LogIsWhatIsGone(w: Walk, n: nat)
    requires Sound(w) && Distinct(w.g)
    ensures Devs(Steps(w, n).g) <= Devs(w.g)
    ensures Members(Log(w, n)) == Devs(w.g) - Devs(Steps(w, n).g)
    decreases n
  {
    if n > 0 {
      StepTakesOff(w);
      LogIsWhatIsGone(WalkStep(w), n - 1);
      hide WalkStep, Removed, Devs, Distinct, Sound, Members;
      MembersNone();
      MembersJoin(Removed(w), Log(WalkStep(w), n - 1), []);
      assert Log(w, n) == Removed(w) + Log(WalkStep(w), n - 1) + [];
    }
  }

  /** parent and children of some devices at one moment. */
  datatype Links = Links(parent: Device?, children: seq<Device>)

  ghost function View(s: set<Device>): map<Device, Links>
    reads s
  {
    map d | d in s :: Links(d.parent, d.children)
  }

  /** Linked, on links noted down. */
  ghost predicate LinkedIn(f: Forest, owner: Device, v: map<Device, Links>) {
    f.Cons? ==>
      && f.dev in v && v[f.dev] == Links(owner, Roots(f.kids))
      && LinkedIn(f.kids, f.dev, v) && LinkedIn(f.rest, owner, v)
  }

  lemma {:induction false} LinkedInView(f: Forest, owner: Device, s: set<Device>)
    requires Devs(f) <= s
    ensures Linked(f, owner) <==> LinkedIn(f, owner, View(s))
  {
    if f.Cons? {
      LinkedInView(f.kids, f.dev, s);
      LinkedInView(f.rest, owner, s);
    }
  }

  lemma {:induction false} StillLinked(f: Forest, owner: Device, v: map<Device, Links>, w: map<Device, Links>)
    requires LinkedIn(f, owner, v)
    requires forall d :: d in Devs(f) ==> d in v && d in w && v[d] == w[d]
    ensures LinkedIn(f, owner, w)
  {
    if f.Cons? {
      StillLinked(f.kids, f.dev, v, w);
      StillLinked(f.rest, owner, v, w);
    }
  }

  /** Sibling k of f: where it stands in the list of siblings, and what its links are. */
  lemma {:induction false} NthIs(f: Forest, k: nat, owner: Device)
    requires k < Siblings(f) && Distinct(f)
    ensures Nth(f, k).dev in Devs(f) && Distinct(Nth(f, k).kids)
    ensures Remove(Roots(f), Nth(f, k).dev) == Roots(DropNth(f, k))
    ensures After(Roots(f), Nth(f, k).dev) == if k + 1 == Siblings(f) then null else Nth(f, k + 1).dev
    ensures Linked(f, owner) ==> Nth(f, k).dev.parent == owner && Nth(f, k).dev.children == Roots(Nth(f, k).kids)
  {
    assert Roots(f)[1..] == Roots(f.rest);
    RootsAreDevs(f.rest);
    if k > 0 {
      NthIs(f.rest, k - 1, owner);
    }
  }

  /** The siblings m levels down are the children of the device above them. */
  lemma {:induction false} AboveIs(f: Forest, m: nat, owner: Device)
    requires Deep(f, m) && Linked(f, owner) && Distinct(f) && owner !in Devs(f)
    ensures Linked(Down(f, m), Above(f, m, owner)) && Distinct(Down(f, m)) && Devs(Down(f, m)) <= Devs(f)
    ensures Above(f, m, owner) !in Devs(Down(f, m)) && Above(f, m, owner) in Devs(f) + {owner}
    ensures m > 0 ==> Above(f, m, owner) in Devs(f) && Above(f, m, owner).children == Roots(Down(f, m))
  {
    if m > 0 {
      AboveIs(f.kids, m - 1, f.dev);
    }
  }

  lemma {:induction false} DropNthLinked(f: Forest, k: nat, owner: Device, v: map<Device, Links>, w: map<Device, Links>)
    requires k < Siblings(f) && Nth(f, k).kids.Nil? && Distinct(f) && LinkedIn(f, owner, v)
    requires forall d :: d in Devs(f) && d != Nth(f, k).dev ==> d in v && d in w && v[d] == w[d]
    ensures LinkedIn(DropNth(f, k), owner, w)
  {
    if k == 0 {
      StillLinked(f.rest, owner, v, w);
    } else {
      DropNthDevs(f.rest, k - 1);
      DropNthLinked(f.rest, k - 1, owner, v, w);
      StillLinked(f.kids, f.dev, v, w);
    }
  }

  /** Unlinking a leaf m levels down leaves the rest of the tree linked. */
  lemma {:induction false} DropAtLinked(f: Forest, m: nat, k: nat, owner: Device,
                                        v: map<Device, Links>, w: map<Device, Links>)
    requires Deep(f, m) && k < Siblings(Down(f, m)) && Nth(Down(f, m), k).kids.Nil?
    requires Distinct(f) && owner !in Devs(f) && LinkedIn(f, owner, v)
    requires forall d :: d in Devs(f) && d != Nth(Down(f, m), k).dev && d != Above(f, m, owner) ==>
               d in v && d in w && v[d] == w[d]
    requires var above := Above(f, m, owner);
             m > 0 ==> above in v && above in w
                       && w[above] == Links(v[above].parent, Roots(DropNth(Down(f, m), k)))
    ensures LinkedIn(DropAt(f, m, k), owner, w)
  {
    if m == 0 {
      DropNthLinked(f, k, owner, v, w);
    } else {
      DropAtDevs(f.kids, m - 1, k);
      AboveInside(f.kids, m - 1, f.dev);
      DropAtLinked(f.kids, m - 1, k, f.dev, v, w);
      StillLinked(f.rest, owner, v, w);
    }
  }

  lemma {:induction false} AboveInside(f: Forest, m: nat, owner: Device)
    requires Deep(f, m)
    ensures Above(f, m, owner) in Devs(f) + {owner}
    ensures owner !in Devs(f) ==> (m == 0 <==> Above(f, m, owner) == owner)
  {
    if m > 0 {
      AboveInside(f.kids, m - 1, f.dev);
    }
  }

  /** What memset leaves of a device. */
  predicate Blank(d: Device)
    reads d
  {
    d.name == "" && d.index == 0 && d.parent == null && d.children == []
  }

  /** The stack holds the first child, its first child, and so on. */
  ghost predicate Path(g: Forest, stack: seq<Device>) {
    forall j :: 0 <= j < |stack| ==> Deep(g, j) && Down(g, j).Cons? && stack[j] == Down(g, j).dev
  }

  ghost function Cursor(w: Walk): Device? {
    if AtDevice(w) then Here(w).dev else null
  }

  /** The loops of a removal below dev, which started with forest f, stand at w: the stack and
      the node are those of w, the tree below dev is the one still to do, and what was taken off
      is blank. */
  ghost predicate Standing(dev: Device, f: Forest, w: Walk, stack: seq<Device>, node: Device?)
    reads dev, Devs(f), Devs(w.g)
  {
    && Sound(w) && Tree(dev, w.g) && Devs(w.g) <= Devs(f) && dev !in Devs(f)
    && |stack| == w.depth && Path(w.g, stack) && node == Cursor(w)
    && forall d :: d in Devs(f) && d !in Devs(w.g) ==> Blank(d)
  }

  lemma StandingStarts(dev: Device, f: Forest)
    requires Tree(dev, f)
    ensures Standing(dev, f, Walk(f, 0, 0), [], First(dev.children))
  {
    RootsAreDevs(f);
  }

  /** The device the walk is at: its links, and the sibling behind it. */
  lemma StandingAt(dev: Device, g: Forest, m: nat, k: nat)
    requires Tree(dev, g) && Deep(g, m) && k < Siblings(Down(g, m))
    ensures var node, above := Nth(Down(g, m), k).dev, Above(g, m, dev);
            && node in Devs(g) && node != dev && node.parent == above && above != node && above in Devs(g) + {dev}
            && above.children == Roots(Down(g, m)) && node.children == Roots(Nth(Down(g, m), k).kids)
            && Remove(above.children, node) == Roots(DropNth(Down(g, m), k))
            && Next(node) == (if k + 1 == Siblings(Down(g, m)) then null else Nth(Down(g, m), k + 1).dev)
  {
    AboveIs(g, m, dev);
    NthIs(Down(g, m), k, Above(g, m, dev));
  }

  lemma HasChildren(dev: Device, w: Walk)
    requires AtDevice(w) && Tree(dev, w.g)
    ensures |Here(w).dev.children| > 0 <==> Here(w).kids.Cons?
    ensures First(Here(w).dev.children) == if Here(w).kids.Cons? then Here(w).kids.dev else null
  {
    StandingAt(dev, w.g, w.depth, w.passed);
    RootsAreDevs(Here(w).kids);
  }

  lemma StandingIn(dev: Device, f: Forest, w: Walk, stack: seq<Device>, node: Device)
    requires Standing(dev, f, w, stack, node) && |node.children| > 0 && |stack| < 128
    ensures Standing(dev, f, WalkStep(w), stack + [node], First(node.children))
    ensures Removed(w) == [] && !Done(w)
  {
    hide Tree, Devs, Height;
    HasChildren(dev, w);
    DownDeeper(w.g, w.depth);
  }

  lemma StandingOver(dev: Device, f: Forest, w: Walk, stack: seq<Device>, node: Device)
    requires Standing(dev, f, w, stack, node) && |node.children| > 0 && |stack| >= 128
    ensures Standing(dev, f, WalkStep(w), stack, Next(node))
    ensures Removed(w) == [] && !Done(w)
  {
    hide Tree, Devs, Height;
    HasChildren(dev, w);
    StandingAt(dev, w.g, w.depth, w.passed);
  }

  lemma StandingOut(dev: Device, f: Forest, w: Walk, stack: seq<Device>)
    requires Standing(dev, f, w, stack, null) && |stack| > 0
    ensures Standing(dev, f, WalkStep(w), stack[..|stack| - 1], stack[|stack| - 1])
    ensures Removed(w) == [] && !Done(w)
  {
    hide Tree, Devs, Height;
    DownDeeper(w.g, w.depth - 1);
  }

  lemma StandingEnds(dev: Device, f: Forest, w: Walk, stack: seq<Device>, node: Device?)
    requires Standing(dev, f, w, stack, node) && (dev.children == [] || (node == null && stack == []))
    ensures Done(w) && w.g.Nil?
  {
    RootsAreDevs(w.g);
  }

  lemma StandingNodes(dev: Device, f: Forest, w: Walk, stack: seq<Device>, node: Device)
    requires Standing(dev, f, w, stack, node)
    ensures node in Devs(f) && node != dev && node.parent != null && node.parent in Devs(f) + {dev}
  {
    StandingAt(dev, w.g, w.depth, w.passed);
  }

  /** linked_list_remove from the parent's children, and devmgr_dev_delete. */
  method Unlink(child: Device)
    requires child.parent != null && child.parent != child && child.children == []
    modifies child, child.parent
    ensures Blank(child)
    ensures var p := old(child.parent);
            p.children == Remove(old(child.parent.children), child)
            && p.parent == old(child.parent.parent) && p.name == old(child.parent.name)
            && p.index == old(child.parent.index)
  {
    child.parent.children := Remove(child.parent.children, child);
    child.name, child.index, child.parent, child.children := "", 0, null, [];
  }

  lemma {:induction false} AboveInView(f: Forest, m: nat, owner: Device, v: map<Device, Links>)
    requires Deep(f, m) && LinkedIn(f, owner, v) && Distinct(f) && owner !in Devs(f)
    ensures m > 0 ==> Above(f, m, owner) in v && v[Above(f, m, owner)].children == Roots(Down(f, m))
  {
    if m > 0 {
      AboveInView(f.kids, m - 1, f.dev, v);
    }
  }

  lemma {:induction false} DropRoots(f: Forest, m: nat, k: nat)
    requires Deep(f, m) && k < Siblings(Down(f, m))
    ensures m > 0 ==> Roots(DropAt(f, m, k)) == Roots(f)
    ensures m == 0 ==> Down(f, m) == f && DropAt(f, m, k) == DropNth(f, k)
  {
  }

  /** The links after the leaf the walk is at was taken off. */
  lemma LeafGone(g: Forest, m: nat, k: nat, dev: Device, v: map<Device, Links>, w: map<Device, Links>)
    requires Deep(g, m) && k < Siblings(Down(g, m)) && Nth(Down(g, m), k).kids.Nil? && Distinct(g)
    requires dev !in Devs(g) && v.Keys == w.Keys == Devs(g) + {dev}
    requires LinkedIn(g, dev, v) && v[dev].children == Roots(g)
    requires var leaf, above := Nth(Down(g, m), k).dev, Above(g, m, dev);
             && above in v && w[above] == Links(v[above].parent, Roots(DropNth(Down(g, m), k)))
             && forall d :: d in v && d != leaf && d != above ==> w[d] == v[d]
    ensures LinkedIn(DropAt(g, m, k), dev, w)
    ensures Nth(Down(g, m), k).dev != dev ==> w[dev].children == Roots(DropAt(g, m, k))
  {
    AboveInside(g, m, dev);
    DropAtLinked(g, m, k, dev, v, w);
    DropRoots(g, m, k);
  }

  /** Taking leaf k of the siblings m levels down off the tree below dev. */
  method UnlinkLeaf(dev: Device, node: Device, ghost g: Forest, ghost m: nat, ghost k: nat) returns (next: Device?)
    requires Tree(dev, g) && Deep(g, m) && k < Siblings(Down(g, m)) && Nth(Down(g, m), k).dev == node
    requires node.children == []
    modifies node, node.parent
    ensures Tree(dev, DropAt(g, m, k)) && Blank(node) && dev.parent == old(dev.parent)
    ensures next == if k + 1 == Siblings(Down(g, m)) then null else Nth(Down(g, m), k + 1).dev
  {
    hide Linked, Distinct, Roots, Height, Down, DropAt, DropNth, Above, LinkedIn, After, Remove, Deep, Nth, Siblings;
    ghost var all := Devs(g) + {dev};
    StandingAt(dev, g, m, k);
    RootsAreDevs(Nth(Down(g, m), k).kids);
    LinkedInView(g, dev, all);
    ghost var v := View(all);
    DropAtDevs(g, m, k);
    next := Next(node);
    Unlink(node);
    ghost var w := View(all);
    LeafGone(g, m, k, dev, v, w);
    LinkedInView(DropAt(g, m, k), dev, all);
  }

  lemma LeafStep(w: Walk, stack: seq<Device>)
    requires AtDevice(w) && Here(w).kids.Nil? && |stack| == w.depth && Path(w.g, stack) && Distinct(w.g)
    ensures var w' := WalkStep(w);
            && Sound(w') && w' == w.(g := DropAt(w.g, w.depth, w.passed)) && Path(w'.g, stack)
            && Devs(w'.g) == Devs(w.g) - {Here(w).dev}
            && Cursor(w') == (if w.passed + 1 == Siblings(Down(w.g, w.depth)) then null
                              else Nth(Down(w.g, w.depth), w.passed + 1).dev)
            && Removed(w) == [Here(w).dev] && !Done(w)
  {
    hide Distinct, Devs, Height;
    StepIsSound(w);
    DropAtDevs(w.g, w.depth, w.passed);
    DropAtPath(w.g, w.depth, w.passed);
    DropAtFacts(w.g, w.depth, w.passed, 129);
    NthAfterDrop(Down(w.g, w.depth), w.passed);
  }

  lemma {:induction false} NthAfterDrop(f: Forest, k: nat)
    requires k < Siblings(f)
    ensures Siblings(DropNth(f, k)) == Siblings(f) - 1
    ensures k + 1 < Siblings(f) ==> Nth(DropNth(f, k), k) == Nth(f, k + 1)
  {
    if k > 0 {
      NthAfterDrop(f.rest, k - 1);
    }
  }

  /** The leaf branch of the walk. */
  method RemoveLeaf(dev: Device, node: Device, ghost f: Forest, ghost w: Walk, ghost stack: seq<Device>)
    returns (next: Device?)
    requires Standing(dev, f, w, stack, node) && node.children == []
    modifies node, node.parent
    ensures Standing(dev, f, WalkStep(w), stack, next)
    ensures Removed(w) == [node] && !Done(w) && dev.parent == old(dev.parent)
  {
    hide Tree, Height, Down, DropAt, Deep, Path, WalkStep, Removed, Nth, Siblings;
    HasChildren(dev, w);
    StandingNodes(dev, f, w, stack, node);
    ghost var gone := Devs(f) - Devs(w.g);
    assert forall d :: d in gone ==> Blank(d);
    assert allocated(Devs(f));
    TreeIsDistinct(dev, w.g);
    LeafStep(w, stack);
    StandingAt(dev, w.g, w.depth, w.passed);
    next := UnlinkLeaf(dev, node, w.g, w.depth, w.passed);
    assert Devs(f) - Devs(WalkStep(w).g) == gone + {node};
  }

  lemma TreeIsDistinct(dev: Device, f: Forest)
    requires Tree(dev, f)
    ensures Distinct(f)
  {
  }

  /** The body of the inner loop. */
  method Visit(dev: Device, node: Device, stack: seq<Device>, ghost f: Forest, ghost w: Walk)
    returns (next: Device?, stack': seq<Device>, gone: seq<Device>)
    requires Standing(dev, f, w, stack, node)
    modifies node, node.parent
    ensures Standing(dev, f, WalkStep(w), stack', next) && gone == Removed(w) && !Done(w)
    ensures dev.parent == old(dev.parent)
  {
    hide Standing, WalkStep, Removed, Done;
    if |node.children| > 0 {
      if |stack| < 128 {
        StandingIn(dev, f, w, stack, node);
        return First(node.children), stack + [node], [];
      }
      StandingOver(dev, f, w, stack, node);
      next := Next(node);
      return next, stack, [];
    } else {
      next := RemoveLeaf(dev, node, f, w, stack);
      return next, stack, [node];
    }
  }

  lemma StepsStart(w: Walk)
    ensures Steps(w, 0) == w && Log(w, 0) == []
  {
  }

  /** What is known of the tree after n rounds. */
  lemma {:induction false} RoundsSpent(dev: Device, f: Forest, w: Walk, stack: seq<Device>, node: Device?, n: nat)
    requires Distinct(f) && Standing(dev, f, w, stack, node) && w == Steps(Walk(f, 0, 0), n)
    ensures Tree(dev, w.g) && Devs(w.g) <= Devs(f)
    ensures forall d :: d in Devs(f) ==>
              && (d in Log(Walk(f, 0, 0), n) <==> d !in Devs(w.g))
              && (d in Log(Walk(f, 0, 0), n) ==> Blank(d))
    ensures Done(w) <==> node == null && stack == []
    ensures Done(w) ==> dev.children == []
    ensures Height(f) > 129 ==> !Done(w) && Height(w.g) > 129
  {
    LogIsWhatIsGone(Walk(f, 0, 0), n);
    MembersAre(Log(Walk(f, 0, 0), n));
    forall d | d in Devs(f) ensures d in Log(Walk(f, 0, 0), n) <==> d in Members(Log(Walk(f, 0, 0), n)) {
    }
    if Height(f) > 129 {
      NeverDone(Walk(f, 0, 0), n);
    }
    hide Log, Steps, Height, Distinct, Devs;
    RootsAreDevs(w.g);
  }

  /** The loops of devmgr_dev_remove on a tree of any height, for a number of rounds: the heap
      follows WalkStep, so after n rounds exactly the devices of Log(Walk(f, 0, 0), n) are gone,
      un-initialised in that order, and the others stand linked below dev as they were. The
      loops are over exactly when the walk is done. */
  method RemovalRounds(dev: Device, rounds: nat, ghost f: Forest)
    returns (over: bool, uninit: seq<Device>, ghost w: Walk)
    requires Tree(dev, f)
    modifies dev, Devs(f)
    ensures w == Steps(Walk(f, 0, 0), rounds) && uninit == Log(Walk(f, 0, 0), rounds)
    ensures Tree(dev, w.g) && Devs(w.g) <= Devs(f) && dev.parent == old(dev.parent)
    ensures forall d :: d in Devs(f) ==> (d in uninit <==> d !in Devs(w.g)) && (d in uninit ==> Blank(d))
    ensures over <==> Done(w)
    ensures over ==> dev.children == []
    ensures Height(f) > 129 ==> !over && Height(w.g) > 129
  {
    hide Linked, Distinct, Roots, Height, Devs, Tree, Standing, Sound, Done, WalkStep, Steps, Log, Removed;
    ghost var w0 := Walk(f, 0, 0);
    StandingStarts(dev, f);
    TreeIsDistinct(dev, f);
    var n: nat, node, stack: seq<Device> := 0, First(dev.children), [];
    w, uninit, over := w0, [], false;
    StepsStart(w0);
    while |dev.children| > 0
      invariant n <= rounds && Standing(dev, f, w, stack, node) && dev.parent == old(dev.parent)
      invariant w == Steps(w0, n) && uninit == Log(w0, n)
      decreases rounds - n
    {
      ghost var n0, before := n, node;
      while node != null
        invariant n0 <= n <= rounds && (n == n0 ==> node == before)
        invariant Standing(dev, f, w, stack, node) && dev.parent == old(dev.parent)
        invariant w == Steps(w0, n) && uninit == Log(w0, n)
        decreases rounds - n
      {
        StandingNodes(dev, f, w, stack, node);
        if n == rounds {
          RoundsSpent(dev, f, w, stack, node, n);
          return;
        }
        OneMore(w0, n);
        var gone;
        node, stack, gone := Visit(dev, node, stack, f, w);
        n, uninit, w := n + 1, uninit + gone, WalkStep(w);
      }
      if |stack| > 0 {
        StandingOut(dev, f, w, stack);
        if n == rounds {
          RoundsSpent(dev, f, w, stack, node, n);
          return;
        }
        OneMore(w0, n);
        node := stack[|stack| - 1];
        stack := stack[..|stack| - 1];
        n, w := n + 1, WalkStep(w);
      }
      if node == null && |stack| == 0 {
        break;
      }
    }
    StandingEnds(dev, f, w, stack, node);
    DoneStays(w0, n, rounds);
    over := true;
    RoundsSpent(dev, f, w, stack, node, rounds);
  }

  lemma RootsEmpty(dev: Device, f: Forest)
    requires Tree(dev, f)
    ensures |dev.children| > 0 <==> f.Cons?
  {
    RootsAreDevs(f);
  }

  lemma WalkEndsEmpty(f: Forest, n: nat)
    requires Height(f) <= 129 && Steps(Walk(f, 0, 0), n).g.Nil?
    ensures Log(Walk(f, 0, 0), n) == Postorder(f)
  {
    LogIsPostorder(Walk(f, 0, 0), n);
    assert Log(Walk(f, 0, 0), n) + [] == Postorder(f);
  }

  /** devmgr_dev_remove of a device with the tree f below it, no more than 129 levels high. It
      refuses the root bus, and a device with children unless these are to go too. Otherwise it
      removes the device and everything below, and nothing else: uninit lists the devices in the
      order in which they are un-initialised, each once and after everything below it; the
      siblings of dev keep their order. It always ends. */
  method DevRemove(dev: Device, removeChildren: bool, ghost f: Forest) returns (status: int, uninit: seq<Device>)
    requires Tree(dev, f) && (dev.parent != null && (f.Nil? || removeChildren) ==> Height(f) <= 129)
    requires dev.parent != null ==> dev.parent != dev && dev.parent !in Devs(f)
    modifies dev, dev.parent, Devs(f)
    ensures var refused := old(dev.parent) == null || (f.Cons? && !removeChildren);
            && (refused ==>
                && status == -1 && uninit == [] && Tree(dev, f)
                && dev.parent == old(dev.parent) && dev.name == old(dev.name) && dev.index == old(dev.index)
                && (dev.parent != null ==> dev.parent.children == old(dev.parent.children)))
            && (!refused ==>
                && status == 0 && uninit == Postorder(f) + [dev]
                && Blank(dev) && (forall d :: d in Devs(f) ==> Blank(d))
                && old(dev.parent).children == old(Remove(dev.parent.children, dev))
                && old(dev.parent).parent == old(dev.parent.parent)
                && old(dev.parent).name == old(dev.parent.name) && old(dev.parent).index == old(dev.parent.index))
  {
    hide Linked, Distinct, Roots, Height, Postorder, Remove, Devs, Tree, Standing, Sound, Done, WalkStep, Steps, Log,
      Removed;
    uninit := [];
    if dev.parent == null {
      return -1, uninit;
    }
    RootsEmpty(dev, f);
    if |dev.children| > 0 && !removeChildren {
      return -1, uninit;
    }
    StandingStarts(dev, f);
    StepsStart(Walk(f, 0, 0));
    var node, stack: seq<Device> := First(dev.children), [];
    ghost var w0, w, i: nat, p := Walk(f, 0, 0), Walk(f, 0, 0), 0, dev.parent;
    ghost var end := LowWalkEnds(f);
    while |dev.children| > 0
      invariant Standing(dev, f, w, stack, node) && dev.parent == p
      invariant w == Steps(w0, i) && uninit == Log(w0, i) && i <= end
      invariant p.children == old(p.children) && p.parent == old(p.parent)
      invariant p.name == old(p.name) && p.index == old(p.index)
      decreases end - i
    {
      ghost var i0, before := i, node;
      while node != null
        invariant Standing(dev, f, w, stack, node) && dev.parent == p
        invariant w == Steps(w0, i) && uninit == Log(w0, i) && i0 <= i <= end && (i == i0 ==> node == before)
        invariant p.children == old(p.children) && p.parent == old(p.parent)
        invariant p.name == old(p.name) && p.index == old(p.index)
        decreases end - i
      {
        StandingNodes(dev, f, w, stack, node);
        OneMore(w0, i);
        var gone;
        node, stack, gone := Visit(dev, node, stack, f, w);
        NotYetDone(w0, i, end);
        i, uninit, w := i + 1, uninit + gone, WalkStep(w);
      }
      if |stack| > 0 {
        StandingOut(dev, f, w, stack);
        OneMore(w0, i);
        NotYetDone(w0, i, end);
        node := stack[|stack| - 1];
        stack := stack[..|stack| - 1];
        i, w := i + 1, WalkStep(w);
      }
      if node == null && |stack| == 0 {
        break;
      }
    }
    StandingEnds(dev, f, w, stack, node);
    WalkEndsEmpty(f, i);
    BlankWhenEmpty(dev, f, w, stack, node);
    assert allocated(Devs(f));
    Unlink(dev);
    return 0, uninit + [dev];
  }

  lemma LowWalkEnds(f: Forest) returns (n: nat)
    requires Height(f) <= 129
    ensures Done(Steps(Walk(f, 0, 0), n))
  {
    n := EventuallyDone(Walk(f, 0, 0));
  }

  lemma NotYetDone(w: Walk, i: nat, n: nat)
    requires Done(Steps(w, n)) && !Done(Steps(w, i)) && i <= n
    ensures i < n
  {
  }

  lemma BlankWhenEmpty(dev: Device, f: Forest, w: Walk, stack: seq<Device>, node: Device?)
    requires Standing(dev, f, w, stack, node) && w.g.Nil?
    ensures dev.children == [] && forall d :: d in Devs(f) ==> Blank(d)
  {
    RootsAreDevs(w.g);
  }
}
