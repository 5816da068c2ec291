/** The shape of a red-black tree, apart from the heap: trees and paths whose positions are
    node objects, their in-order sequence, and the colour rules. Used by RbTrees. */
module RbShapes {

  datatype Color = BLACK | RED

  class RbNode {
    var parent: RbNode?
    var left: RbNode?
    var right: RbNode?
    var color: Color

    constructor ()
      ensures color == BLACK && parent == null && left == null && right == null
    {
      parent, left, right, color := null, null, null, BLACK;
    }
  }

  datatype Tree = Leaf | Node(left: Tree, node: RbNode, color: Color, right: Tree)

  /** The way from a subtree up to the root: at each step the node above, whether the subtree
      hangs on its left or right, and the sibling subtree. */
  datatype Path =
    | Top
    | GoLeft(up: Path, node: RbNode, color: Color, sib: Tree)
    | GoRight(up: Path, node: RbNode, color: Color, sib: Tree)

  function Nodes(t: Tree): set<RbNode> {
    match t
    case Leaf => {}
    case Node(l, n, _, r) => Nodes(l) + {n} + Nodes(r)
  }

  function PathNodes(p: Path): set<RbNode> {
    if p.Top? then {} else {p.node} + Nodes(p.sib) + PathNodes(p.up)
  }

  function Inorder(t: Tree): seq<RbNode> {
    match t
    case Leaf => []
    case Node(l, n, _, r) => Inorder(l) + [n] + Inorder(r)
  }

  /** The nodes left of the hole, and right of it, in order. */
  function Before(p: Path): seq<RbNode> {
    match p
    case Top => []
    case GoLeft(up, _, _, _) => Before(up)
    case GoRight(up, n, _, sib) => Before(up) + Inorder(sib) + [n]
  }

  function After(p: Path): seq<RbNode> {
    match p
    case Top => []
    case GoLeft(up, n, _, sib) => [n] + Inorder(sib) + After(up)
    case GoRight(up, _, _, _) => After(up)
  }

  /** One step up. */
  function Up(t: Tree, p: Path): Tree
    requires !p.Top?
  {
    if p.GoLeft? then Node(t, p.node, p.color, p.sib) else Node(p.sib, p.node, p.color, t)
  }

  function Plug(t: Tree, p: Path): Tree
    decreases p
  {
    if p.Top? then t else Plug(Up(t, p), p.up)
  }

  function Depth(p: Path): nat {
    if p.Top? then 0 else 1 + Depth(p.up)
  }

  lemma Regroup<T>(a: seq<T>, b: seq<T>, c: seq<T>, d: seq<T>, e: seq<T>)
    ensures a + (b + c + d) + e == a + b + (c + d + e)
    ensures a + (b + c + d) + e == (a + b + c) + d + e
  {
  }

  lemma Spread<T>(a: seq<T>, b: seq<T>, c: seq<T>, d: seq<T>, e: seq<T>)
    ensures a + (b + c + d) + e == (a + b) + c + (d + e)
  {
  }

  lemma Assoc<T>(a: seq<T>, b: seq<T>, c: seq<T>)
    ensures a + b + c == a + (b + c)
    ensures a + [] == a && [] + a == a
  {
  }

  lemma SeqCut<T>(s: seq<T>, a: seq<T>, x: T, b: seq<T>)
    requires s == a + [x] + b
    ensures |a| < |s| && s[|a|] == x && s[..|a|] == a && s[|a| + 1..] == b
  {
  }

  lemma {:induction false} PlugInorder(t: Tree, p: Path)
    ensures Inorder(Plug(t, p)) == Before(p) + Inorder(t) + After(p)
    decreases p
  {
    if !p.Top? {
      PlugInorder(Up(t, p), p.up);
      if p.GoLeft? {
        Regroup(Before(p.up), Inorder(t), [p.node], Inorder(p.sib), After(p.up));
      } else {
        Regroup(Before(p.up), Inorder(p.sib), [p.node], Inorder(t), After(p.up));
      }
    }
  }

  lemma {:induction false} PlugNodes(t: Tree, p: Path)
    ensures Nodes(Plug(t, p)) == Nodes(t) + PathNodes(p)
    decreases p
  {
    if !p.Top? {
      PlugNodes(Up(t, p), p.up);
    }
  }

  lemma {:induction false} NodesInorder(t: Tree)
    ensures forall n :: n in Nodes(t) <==> n in Inorder(t)
  {
    if t.Node? {
      NodesInorder(t.left);
      NodesInorder(t.right);
    }
  }

  // ---------------------------------------------------------------- no node twice

  predicate Distinct(t: Tree) {
    match t
    case Leaf => true
    case Node(l, n, _, r) =>
      && Distinct(l) && Distinct(r)
      && n !in Nodes(l) && n !in Nodes(r) && Nodes(l) !! Nodes(r)
  }

  predicate PathDistinct(p: Path) {
    p.Top? ||
    (&& PathDistinct(p.up) && Distinct(p.sib)
     && p.node !in Nodes(p.sib) && p.node !in PathNodes(p.up) && Nodes(p.sib) !! PathNodes(p.up))
  }

  // ---------------------------------------------------------------- colours

  predicate IsRed(t: Tree) {
    t.Node? && t.color == RED
  }

  /** Black height h on every branch, and no red node with a red child. */
  predicate RB(t: Tree, h: int) {
    match t
    case Leaf => h == 0
    case Node(l, _, c, r) =>
      if c == BLACK then RB(l, h - 1) && RB(r, h - 1)
      else RB(l, h) && RB(r, h) && !IsRed(l) && !IsRed(r)
  }

  ghost predicate IsRedBlack(t: Tree) {
    !IsRed(t) && exists h :: RB(t, h)
  }

  predicate RedPath(p: Path) {
    !p.Top? && p.color == RED
  }

  /** Every rule holds on the path, for a hole of black height h; the root is black. */
  predicate PathRB(p: Path, h: int) {
    p.Top? ||
    (&& RB(p.sib, h)
     && if p.color == RED then !IsRed(p.sib) && !p.up.Top? && !RedPath(p.up) && PathRB(p.up, h)
        else PathRB(p.up, h + 1))
  }

  lemma {:induction false} PlugRB(t: Tree, p: Path, h: int)
    requires RB(t, h) && PathRB(p, h)
    requires IsRed(t) ==> !RedPath(p) && !p.Top?
    ensures IsRedBlack(Plug(t, p))
    decreases p
  {
    if !p.Top? {
      PlugRB(Up(t, p), p.up, if p.color == RED then h else h + 1);
    }
  }

  // ---------------------------------------------------------------- height

  function Max(a: nat, b: nat): nat {
    if a < b then b else a
  }

  function Height(t: Tree): nat {
    match t
    case Leaf => 0
    case Node(l, _, _, r) => 1 + Max(Height(l), Height(r))
  }

  function Pow2(k: nat): nat {
    if k == 0 then 1 else 2 * Pow2(k - 1)
  }

  lemma {:induction false} RBBounds(t: Tree, h: int)
    requires RB(t, h)
    ensures 0 <= h
    ensures Height(t) <= 2 * h + (if IsRed(t) then 1 else 0)
    ensures Pow2(h) <= |Inorder(t)| + 1
  {
    if t.Node? {
      RBBounds(t.left, if t.color == BLACK then h - 1 else h);
      RBBounds(t.right, if t.color == BLACK then h - 1 else h);
    }
  }

  /** A red-black tree of n nodes has height at most 2 log2(n + 1). */
  lemma HeightIsLogarithmic(t: Tree)
    requires IsRedBlack(t)
    ensures exists k: nat :: Height(t) <= 2 * k && Pow2(k) <= |Inorder(t)| + 1
  {
    var h :| RB(t, h);
    RBBounds(t, h);
  }

  // ---------------------------------------------------------------- both hands at once

  // The source writes every case of the deletion fixup twice, once for each side. The model
  // says "near" for the side the short subtree hangs on and "far" for the other.

  function Make(left: bool, near: Tree, n: RbNode, c: Color, far: Tree): Tree {
    if left then Node(near, n, c, far) else Node(far, n, c, near)
  }

  function Go(left: bool, up: Path, n: RbNode, c: Color, sib: Tree): Path {
    if left then GoLeft(up, n, c, sib) else GoRight(up, n, c, sib)
  }

  function Near(t: Tree, left: bool): Tree
    requires t.Node?
  {
    if left then t.left else t.right
  }

  function Far(t: Tree, left: bool): Tree
    requires t.Node?
  {
    Near(t, !left)
  }

  function Blackened(t: Tree): Tree
    requires t.Node?
  {
    t.(color := BLACK)
  }

  /** The deletion fixup, as a question on the colours around the short subtree: does it stop
      at a red node, which rb_delete then does not blacken? */
  predicate EndsRed(t: Tree, p: Path)
    decreases p
  {
    if IsRed(t) then true
    else if p.Top? || p.sib.Leaf? then false
    else if IsRed(p.sib) then
      var w := Near(p.sib, p.GoLeft?);
      w.Node? && !IsRed(w.left) && !IsRed(w.right)
    else if !IsRed(p.sib.left) && !IsRed(p.sib.right) then
      p.color == RED || EndsRed(Leaf, p.up)
    else false
  }

  /** A subtree one black node short of what its path expects; blackening its root, if that is
      red, would make up for it. */
  predicate Short(t: Tree, p: Path, h: int) {
    && PathRB(p, h + 1)
    && if IsRed(t) then RB(Blackened(t), h + 1) else RB(t, h)
  }

  lemma {:induction false} RBHeightUnique(t: Tree, h: int, k: int)
    requires RB(t, h) && RB(t, k)
    ensures h == k
  {
    if t.Node? {
      RBHeightUnique(t.left, if t.color == BLACK then h - 1 else h, if t.color == BLACK then k - 1 else k);
    }
  }

  lemma RBChildren(t: Tree, k: int)
    requires t.Node? && RB(t, k)
    ensures var k' := if t.color == BLACK then k - 1 else k;
            && RB(t.left, k') && RB(t.right, k')
            && (t.color == RED ==> !IsRed(t.left) && !IsRed(t.right))
  {
  }

  /** If a plugged tree is red-black, so is the part in the hole, at the height the path expects. */
  lemma {:induction false} PlugNeedsHeight(t: Tree, p: Path, h: int)
    requires PathRB(p, h) && !p.Top? && exists k :: RB(Plug(t, p), k)
    ensures RB(t, h) && (IsRed(t) ==> !RedPath(p))
    decreases p
  {
    var u := Up(t, p);
    if p.up.Top? {
      var k :| RB(Plug(t, p), k);
      assert Plug(t, p) == u;
    } else {
      PlugNeedsHeight(u, p.up, if p.color == RED then h else h + 1);
    }
    var k :| RB(u, k);
    var k' := if p.color == RED then k else k - 1;
    RBChildren(u, k);
    RBHeightUnique(p.sib, h, k');
  }

  /** Where the fixup stops, the tree meets the colour rules exactly when it stopped at a black node. */
  lemma ShortIsRedBlackIff(t: Tree, p: Path, h: int)
    requires Short(t, p, h) && (p.Top? || IsRed(t))
    ensures IsRedBlack(Plug(t, p)) <==> !IsRed(t)
  {
    if !p.Top? {
      if IsRedBlack(Plug(t, p)) {
        PlugNeedsHeight(t, p, h + 1);
        RBHeightUnique(t.left, h, h + 1);
      }
    }
  }

  // ---------------------------------------------------------------- the cases of the fixup

  /** The short subtree has a sibling: the source never reads a child of the sentinel here. */
  lemma SiblingIsThere(t: Tree, p: Path, h: int)
    requires Short(t, p, h) && !IsRed(t) && !p.Top?
    ensures p.sib.Node?
  {
    RBBounds(t, h);
  }

  /** Red sibling: it goes black, the parent red, and the parent is rotated. */
  function AfterRedSibling(p: Path): Path
    requires !p.Top? && p.sib.Node?
  {
    var left := p.GoLeft?;
    Go(left, Go(left, p.up, p.sib.node, BLACK, Far(p.sib, left)), p.node, RED, Near(p.sib, left))
  }

  lemma RedSiblingRules(t: Tree, p: Path, h: int)
    requires Short(t, p, h) && !IsRed(t) && !p.Top? && IsRed(p.sib)
    ensures var p' := AfterRedSibling(p);
            Short(t, p', h) && EndsRed(t, p') == EndsRed(t, p) && p'.sib.Node? && !IsRed(p'.sib)
  {
    RBChildren(p.sib, h + 1);
    RBBounds(t, h);
  }

  /** Black sibling with black children: it goes red, and the parent is short instead. */
  lemma BlackNephewsRules(t: Tree, p: Path, h: int)
    requires Short(t, p, h) && !IsRed(t) && !p.Top? && p.sib.Node?
    requires !IsRed(p.sib) && !IsRed(p.sib.left) && !IsRed(p.sib.right)
    ensures var t' := Up(t, p.(sib := p.sib.(color := RED)));
            && Short(t', p.up, if p.color == RED then h else h + 1)
            && EndsRed(t', p.up) == EndsRed(t, p)
  {
    RBChildren(p.sib, h + 1);
  }

  /** Black sibling whose far child is black: the near one is rotated into its place. */
  function AfterNearNephew(p: Path): Path
    requires !p.Top? && p.sib.Node? && Near(p.sib, p.GoLeft?).Node?
  {
    var left := p.GoLeft?;
    var near := Near(p.sib, left);
    p.(sib := Make(left, Near(near, left), near.node, BLACK,
                   Make(left, Far(near, left), p.sib.node, RED, Far(p.sib, left))))
  }

  lemma NearNephewRules(t: Tree, p: Path, h: int)
    requires Short(t, p, h) && !IsRed(t) && !p.Top? && p.sib.Node? && !IsRed(p.sib)
    requires IsRed(Near(p.sib, p.GoLeft?)) && !IsRed(Far(p.sib, p.GoLeft?))
    ensures Short(t, AfterNearNephew(p), h)
  {
    RBChildren(p.sib, h + 1);
    RBChildren(Near(p.sib, p.GoLeft?), h);
    var q := AfterNearNephew(p);
    assert RB(Far(q.sib, p.GoLeft?), h);
    assert RB(q.sib, h + 1);
    assert PathRB(q, h + 1) by {
      assert q.up == p.up && q.color == p.color;
    }
  }

  /** Black sibling whose far child is red: one rotation makes up for the missing black node. */
  function AfterFarNephew(t: Tree, p: Path): Tree
    requires !p.Top? && p.sib.Node? && Far(p.sib, p.GoLeft?).Node?
  {
    var left := p.GoLeft?;
    Make(left, Make(left, t, p.node, BLACK, Near(p.sib, left)), p.sib.node, p.color,
         Blackened(Far(p.sib, left)))
  }

  lemma FarNephewRules(t: Tree, p: Path, h: int) returns (k: int)
    requires Short(t, p, h) && !IsRed(t) && !p.Top? && p.sib.Node? && !IsRed(p.sib)
    requires IsRed(Far(p.sib, p.GoLeft?))
    ensures Short(Plug(AfterFarNephew(t, p), p.up), Top, k)
    ensures !IsRed(Plug(AfterFarNephew(t, p), p.up))
  {
    var left := p.GoLeft?;
    RBChildren(p.sib, h + 1);
    RBChildren(Far(p.sib, left), h);
    var r := AfterFarNephew(t, p);
    assert RB(Make(left, t, p.node, BLACK, Near(p.sib, left)), h + 1);
    assert RB(Blackened(Far(p.sib, left)), h + 1);
    PlugRB(r, p.up, if p.color == RED then h + 1 else h + 2);
    k :| RB(Plug(r, p.up), k);
  }

  // ---------------------------------------------------------------- the node to unlink

  /** The subtree of t (itself at path p) whose root is z, and its path. */
  ghost function Locate(t: Tree, p: Path, z: RbNode): (Tree, Path)
    requires z in Nodes(t)
  {
    if t.node == z then (t, p)
    else if z in Nodes(t.left) then Locate(t.left, GoLeft(p, t.node, t.color, t.right), z)
    else Locate(t.right, GoRight(p, t.node, t.color, t.left), z)
  }

  /** The subtree at the minimum of t, and its path. */
  function Min(t: Tree, p: Path): (r: (Tree, Path))
    requires t.Node?
    ensures r.0.Node? && r.0.left.Leaf?
  {
    if t.left.Leaf? then (t, p) else Min(t.left, GoLeft(p, t.node, t.color, t.right))
  }

  function WithoutMin(t: Tree): Tree
    requires t.Node?
  {
    if t.left.Leaf? then t.right else Node(WithoutMin(t.left), t.node, t.color, t.right)
  }

  /** The subtree that rb_delete unlinks: z's own when z has at most one child, otherwise that
      of the next node in order. */
  ghost function Victim(t: Tree, z: RbNode): (Tree, Path)
    requires z in Nodes(t)
  {
    var (s, p) := Locate(t, Top, z);
    if s.Leaf? || s.left.Leaf? || s.right.Leaf? then (s, p)
    else Min(s.right, GoRight(p, s.node, s.color, s.left))
  }

  /** What moves up when the root of m is unlinked. */
  function Rest(m: Tree): Tree
    requires m.Node?
  {
    if m.left.Leaf? then m.right else m.left
  }

  /** The condition under which a deletion gives a red-black tree again: the unlinked node is
      red, or the fixup, looking only at colours, comes to rest at a black node. */
  ghost predicate DeleteRestores(t: Tree, z: RbNode)
    requires z in Nodes(t)
  {
    var (m, p) := Victim(t, z);
    m.Leaf? || m.color == RED || !EndsRed(Rest(m), p)
  }

  /** The condition can fail: a black root with one red child, and the root is deleted. */
  lemma DeleteCanFail(a: RbNode, b: RbNode)
    requires a != b
    ensures var t := Node(Leaf, a, BLACK, Node(Leaf, b, RED, Leaf));
            IsRedBlack(t) && Distinct(t) && a in Nodes(t) && !DeleteRestores(t, a)
  {
    var child := Node(Leaf, b, RED, Leaf);
    var t := Node(Leaf, a, BLACK, child);
    assert RB(Leaf, 0);
    assert RB(child, 0);
    assert RB(t, 1);
    assert Locate(t, Top, a) == (t, Top);
    assert EndsRed(t.right, Top);
  }

  // ---------------------------------------------------------------- paths alike but for their nodes

  predicate Alike(p: Path, q: Path)
    decreases p
  {
    if p.Top? then q.Top?
    else !q.Top? && p.GoLeft? == q.GoLeft? && p.color == q.color && p.sib == q.sib && Alike(p.up, q.up)
  }

  lemma {:induction false} AlikeRefl(p: Path)
    ensures Alike(p, p)
    decreases p
  {
    if !p.Top? {
      AlikeRefl(p.up);
    }
  }

  lemma {:induction false} AlikeRules(t: Tree, p: Path, q: Path, h: int)
    requires Alike(p, q)
    ensures PathRB(p, h) == PathRB(q, h)
    ensures EndsRed(t, p) == EndsRed(t, q)
    decreases p
  {
    if !p.Top? {
      AlikeRules(t, p.up, q.up, if p.color == RED then h else h + 1);
      AlikeRules(Leaf, p.up, q.up, h);
    }
  }

  /** The minimum is found the same way below any two paths, and those paths stay alike. */
  lemma {:induction false} MinAlike(t: Tree, p: Path, q: Path)
    requires t.Node? && Alike(p, q)
    ensures Min(t, p).0 == Min(t, q).0 && Alike(Min(t, p).1, Min(t, q).1)
    ensures t.left.Node? ==>
              && !Min(t, p).1.Top? && !Min(t, q).1.Top?
              && Min(t, p).1.node == Min(t, q).1.node && Min(t, p).1.node in Nodes(t)
    decreases t
  {
    if t.left.Node? {
      MinAlike(t.left, GoLeft(p, t.node, t.color, t.right), GoLeft(q, t.node, t.color, t.right));
    }
  }

  lemma {:induction false} MinWhole(t: Tree, p: Path)
    requires t.Node?
    ensures var (m, q) := Min(t, p);
            && m.node in Nodes(t)
            && Before(q) == Before(p)
            && Inorder(t) + After(p) == [m.node] + Inorder(m.right) + After(q)
            && Nodes(t) + PathNodes(p) == {m.node} + Nodes(m.right) + PathNodes(q)
            && Inorder(t) == [m.node] + Inorder(WithoutMin(t))
    decreases t
  {
    if t.left.Node? {
      var p' := GoLeft(p, t.node, t.color, t.right);
      MinWhole(t.left, p');
      hide Min;
      assert Inorder(t) + After(p) == Inorder(t.left) + After(p');
    } else {
      assert Inorder(t) == [t.node] + Inorder(t.right);
    }
  }

  lemma {:induction false} MinNodes(t: Tree)
    requires t.Node? && Distinct(t)
    ensures var m := Min(t, Top).0;
            && m.node in Nodes(t) && Nodes(WithoutMin(t)) == Nodes(t) - {m.node}
            && Distinct(WithoutMin(t))
    decreases t
  {
    if t.left.Node? {
      MinNodes(t.left);
      AlikeTop(t.left, GoLeft(Top, t.node, t.color, t.right));
    }
  }

  lemma {:induction false} AlikeTop(t: Tree, p: Path)
    requires t.Node?
    ensures Min(t, p).0 == Min(t, Top).0
    decreases t
  {
    if t.left.Node? {
      AlikeTop(t.left, GoLeft(p, t.node, t.color, t.right));
      AlikeTop(t.left, GoLeft(Top, t.node, t.color, t.right));
    }
  }
}
