/** The pointer-level red-black tree (utils/rb_tree.c): nodes with parent links and one black
    sentinel. Methods are proved against the shape of RbShapes: which tree hangs where, which
    in-order sequence it has, and which colour rules it meets. */
module RbTrees {
  import opened RbShapes

  class RbTree {
    var root: RbNode
    const nil: RbNode
    ghost var shape: Tree

    constructor ()
      ensures Valid() && shape == Leaf && fresh(nil) && nil.left == null && nil.right == null
    {
      var n := new RbNode();
      nil := n;
      root := n;
      shape := Leaf;
      new;
      assert RB(shape, 0);
    }

    function TopNode(t: Tree): RbNode {
      if t.Leaf? then nil else t.node
    }

    function PathNode(p: Path): RbNode {
      if p.Top? then nil else p.node
    }

    /** Subtree t is on the heap, its root's parent being p. */
    ghost predicate Linked(t: Tree, p: RbNode)
      reads Nodes(t)
      decreases t
    {
      t.Leaf? ||
      (&& t.node.parent == p && t.node.color == t.color
       && t.node.left == TopNode(t.left) && t.node.right == TopNode(t.right)
       && Linked(t.left, t.node) && Linked(t.right, t.node))
    }

    /** Path p is on the heap, with node x in its hole. */
    ghost predicate Hung(p: Path, x: RbNode)
      reads this`root, PathNodes(p)
      decreases p
    {
      if p.Top? then root == x
      else
        && p.node.parent == PathNode(p.up) && p.node.color == p.color
        && p.node.left == (if p.GoLeft? then x else TopNode(p.sib))
        && p.node.right == (if p.GoLeft? then TopNode(p.sib) else x)
        && Linked(p.sib, p.node)
        && Hung(p.up, p.node)
    }

    predicate Apart(t: Tree, p: Path) {
      && Distinct(t) && PathDistinct(p) && Nodes(t) !! PathNodes(p)
      && nil !in Nodes(t) && nil !in PathNodes(p)
    }

    /** Subtree t at path p is exactly what is on the heap. */
    ghost predicate Zip(t: Tree, p: Path)
      reads this`root, Nodes(t), PathNodes(p)
    {
      Apart(t, p) && Linked(t, PathNode(p)) && Hung(p, TopNode(t))
    }

    ghost predicate Valid()
      reads this, Nodes(shape), nil
    {
      Zip(shape, Top) && nil.color == BLACK && IsRedBlack(shape)
    }

    lemma ZipUp(t: Tree, p: Path)
      requires !p.Top?
      ensures Zip(t, p) <==> Zip(Up(t, p), p.up)
    {
    }

    lemma {:induction false} ZipPlug(t: Tree, p: Path)
      requires Zip(t, p)
      ensures Zip(Plug(t, p), Top)
      decreases p
    {
      if !p.Top? {
        ZipUp(t, p);
        ZipPlug(Up(t, p), p.up);
      }
    }

    // -------------------------------------------------------------- rotations

    static predicate RightChild(t: Tree) {
      t.Node? && t.right.Node?
    }

    static predicate LeftChild(t: Tree) {
      t.Node? && t.left.Node?
    }

    static function RotatedLeft(t: Tree): Tree
      requires RightChild(t)
    {
      var y := t.right;
      Node(Node(t.left, t.node, t.color, y.left), y.node, y.color, y.right)
    }

    static function RotatedRight(t: Tree): Tree
      requires LeftChild(t)
    {
      var y := t.left;
      Node(y.left, y.node, y.color, Node(y.right, t.node, t.color, t.right))
    }

    /** A rotation changes neither the in-order sequence nor the set of nodes. */
    static lemma RotationKeepsOrder(t: Tree)
      ensures RightChild(t) ==> Inorder(RotatedLeft(t)) == Inorder(t) && Nodes(RotatedLeft(t)) == Nodes(t)
      ensures LeftChild(t) ==> Inorder(RotatedRight(t)) == Inorder(t) && Nodes(RotatedRight(t)) == Nodes(t)
    {
      if RightChild(t) {
        var y := t.right;
        assert Inorder(t.left) + [t.node] + (Inorder(y.left) + [y.node] + Inorder(y.right))
            == (Inorder(t.left) + [t.node] + Inorder(y.left)) + [y.node] + Inorder(y.right);
      }
      if LeftChild(t) {
        var y := t.left;
        assert (Inorder(y.left) + [y.node] + Inorder(y.right)) + [t.node] + Inorder(t.right)
            == Inorder(y.left) + [y.node] + (Inorder(y.right) + [t.node] + Inorder(t.right));
      }
    }

    lemma RotationKeepsApart(t: Tree, p: Path)
      requires Apart(t, p)
      ensures RightChild(t) ==> Distinct(t.right) && Apart(RotatedLeft(t), p)
      ensures LeftChild(t) ==> Distinct(t.left) && Apart(RotatedRight(t), p)
    {
      RotationKeepsOrder(t);
      if RightChild(t) {
        assert Distinct(t.right) && Distinct(RotatedLeft(t).left);
      }
      if LeftChild(t) {
        assert Distinct(t.left) && Distinct(RotatedRight(t).right);
      }
    }

    /** Two nodes x and y and three subtrees, no node in common, none of them on the path. */
    predicate Scattered(x: RbNode, y: RbNode, a: Tree, b: Tree, c: Tree, p: Path) {
      && x != y && x !in Nodes(a) + Nodes(b) + Nodes(c) && y !in Nodes(a) + Nodes(b) + Nodes(c)
      && Nodes(a) !! Nodes(b) && Nodes(a) !! Nodes(c) && Nodes(b) !! Nodes(c)
      && PathNodes(p) !! Nodes(a) + Nodes(b) + Nodes(c) + {x, y}
      && nil !in Nodes(a) + Nodes(b) + Nodes(c) + {x, y}
      && Distinct(b)
    }

    /** x has subtrees a and b, with parent q; all of it on the heap. */
    ghost predicate Holds(x: RbNode, q: RbNode, color: Color, a: Tree, b: Tree)
      reads x, Nodes(a), Nodes(b)
    {
      && x.parent == q && x.color == color && x.left == TopNode(a) && x.right == TopNode(b)
      && Linked(a, x) && Linked(b, x)
    }

    lemma LinkedIsHolds(t: Tree, q: RbNode)
      requires t.Node?
      ensures Linked(t, q) <==> Holds(t.node, q, t.color, t.left, t.right)
    {
    }

    lemma LeftRotationScattered(t: Tree, p: Path)
      requires Apart(t, p) && RightChild(t)
      ensures Scattered(t.node, t.right.node, t.left, t.right.left, t.right.right, p)
      ensures Nodes(t) == {t.node, t.right.node} + Nodes(t.left) + Nodes(t.right.left) + Nodes(t.right.right)
    {
      assert Nodes(t.right) == {t.right.node} + Nodes(t.right.left) + Nodes(t.right.right);
      assert Distinct(t.right);
    }

    lemma RightRotationScattered(t: Tree, p: Path)
      requires Apart(t, p) && LeftChild(t)
      ensures Scattered(t.node, t.left.node, t.right, t.left.right, t.left.left, p)
      ensures Nodes(t) == {t.node, t.left.node} + Nodes(t.right) + Nodes(t.left.right) + Nodes(t.left.left)
    {
      assert Nodes(t.left) == {t.left.node} + Nodes(t.left.left) + Nodes(t.left.right);
      assert Distinct(t.left);
    }

    /** The inner subtree of a rotation gets its new parent. */
    method Adopt(child: RbNode, x: RbNode, ghost b: Tree, ghost was: RbNode)
      requires Linked(b, was) && Distinct(b) && nil !in Nodes(b) && child == TopNode(b)
      modifies Nodes(b)
      ensures Linked(b, x)
    {
      if child != nil {
        child.parent := x;
        assert Linked(b.left, child) && Linked(b.right, child);
      }
    }

    /** rb_transplant, also the relinking inside a rotation: v takes u's place below its parent. */
    method Replace(u: RbNode, v: RbNode, ghost p: Path)
      requires Hung(p, u) && u.parent == PathNode(p) && PathDistinct(p)
      requires u != nil && u !in PathNodes(p) && v !in PathNodes(p) && nil !in PathNodes(p)
      modifies this`root, v`parent, PathNodes(p)
      ensures Hung(p, v) && v.parent == PathNode(p)
    {
      if u.parent == nil {
        root := v;
      } else if u == u.parent.left {
        u.parent.left := v;
      } else {
        u.parent.right := v;
      }
      v.parent := u.parent;
    }

    method LeftRotate(x: RbNode, ghost t: Tree, ghost p: Path)
      requires Zip(t, p) && RightChild(t) && t.node == x
      modifies this`root, All(t, p)
      ensures Zip(RotatedLeft(t), p)
    {
      hide Linked, Hung, Nodes, PathNodes, Distinct, PathDistinct;
      ghost var q, a, b, c := PathNode(p), t.left, t.right.left, t.right.right;
      assert allocated(Nodes(a)) && allocated(Nodes(b)) && allocated(Nodes(c)) && allocated(PathNodes(p));
      LinkedIsHolds(t, q);
      LinkedIsHolds(t.right, x);
      RotationKeepsApart(t, p);
      LeftRotationScattered(t, p);
      var y: RbNode := x.right;
      x.right := y.left;
      Adopt(y.left, x, b, y);
      Replace(x, y, p);
      y.left := x;
      x.parent := y;
      assert Holds(x, y, t.color, a, b);
      LinkedIsHolds(RotatedLeft(t).left, y);
      LinkedIsHolds(RotatedLeft(t), q);
    }

    method RightRotate(x: RbNode, ghost t: Tree, ghost p: Path)
      requires Zip(t, p) && LeftChild(t) && t.node == x
      modifies this`root, All(t, p)
      ensures Zip(RotatedRight(t), p)
    {
      hide Linked, Hung, Nodes, PathNodes, Distinct, PathDistinct;
      ghost var q, a, b, c := PathNode(p), t.right, t.left.right, t.left.left;
      assert allocated(Nodes(a)) && allocated(Nodes(b)) && allocated(Nodes(c)) && allocated(PathNodes(p));
      LinkedIsHolds(t, q);
      LinkedIsHolds(t.left, x);
      RotationKeepsApart(t, p);
      RightRotationScattered(t, p);
      var y: RbNode := x.left;
      x.left := y.right;
      Adopt(y.right, x, b, y);
      Replace(x, y, p);
      y.right := x;
      x.parent := y;
      assert Holds(x, y, t.color, b, a);
      LinkedIsHolds(RotatedRight(t).right, y);
      LinkedIsHolds(RotatedRight(t), q);
    }

    method Paint(x: RbNode, c: Color, ghost t: Tree, ghost p: Path)
      requires Zip(t, p) && t.Node? && t.node == x
      modifies x`color
      ensures Zip(t.(color := c), p)
    {
      x.color := c;
    }

    // -------------------------------------------------------------- moving about

    /** The path of the sibling subtree, with t left behind in its place. */
    static function Cross(t: Tree, p: Path): Path
      requires !p.Top?
    {
      if p.GoLeft? then GoRight(p.up, p.node, p.color, t) else GoLeft(p.up, p.node, p.color, t)
    }

    /** What the heap says about the node at the top of t. */
    lemma HereFacts(t: Tree, p: Path)
      requires Zip(t, p) && t.Node?
      ensures t.node in Nodes(t) && t.node in All(t, p) && t.node != nil && nil !in All(t, p)
      ensures t.node.parent == PathNode(p) && t.node.color == t.color
      ensures t.node.left == TopNode(t.left) && t.node.right == TopNode(t.right)
    {
    }

    /** What the heap says about the node above t. */
    lemma AboveFacts(t: Tree, p: Path)
      requires Zip(t, p) && !p.Top?
      ensures Zip(Up(t, p), p.up) && Zip(p.sib, Cross(t, p))
      ensures p.node in PathNodes(p) && p.node in All(t, p) && p.node != nil && p.node !in Nodes(t) && nil !in All(t, p)
      ensures All(Up(t, p), p.up) == All(t, p) && All(p.sib, Cross(t, p)) == All(t, p)
      ensures p.sib.Node? ==> p.sib.node in All(t, p)
      ensures p.node.parent == PathNode(p.up) && p.node.color == p.color
      ensures p.node.left == (if p.GoLeft? then TopNode(t) else TopNode(p.sib))
      ensures p.node.right == (if p.GoLeft? then TopNode(p.sib) else TopNode(t))
      ensures t.Node? ==> TopNode(t) != TopNode(p.sib)
    {
      ZipUp(t, p);
      ZipUp(p.sib, Cross(t, p));
      WholeUp(t, p);
    }

    /** The whole in-order sequence around a position, and all the nodes. */
    static ghost function Whole(t: Tree, p: Path): seq<RbNode> {
      Before(p) + Inorder(t) + After(p)
    }

    static ghost function All(t: Tree, p: Path): set<RbNode> {
      Nodes(t) + PathNodes(p)
    }

    static lemma WholeUp(t: Tree, p: Path)
      requires !p.Top?
      ensures Whole(Up(t, p), p.up) == Whole(t, p) && All(Up(t, p), p.up) == All(t, p)
      ensures Whole(p.sib, Cross(t, p)) == Whole(t, p) && All(p.sib, Cross(t, p)) == All(t, p)
    {
      if p.GoLeft? {
        Regroup(Before(p.up), Inorder(t), [p.node], Inorder(p.sib), After(p.up));
      } else {
        Regroup(Before(p.up), Inorder(p.sib), [p.node], Inorder(t), After(p.up));
      }
    }

    // -------------------------------------------------------------- insertion

    static function Reddened(t: Tree): Tree
      requires t.Node?
    {
      t.(color := RED)
    }

    /** A red parent with a red sibling above it: both go black, the grandparent red. */
    static function Recolored(t: Tree, p: Path): Tree
      requires !p.Top? && !p.up.Top? && IsRed(p.up.sib)
    {
      Reddened(Up(Blackened(Up(t, p)), p.up.(sib := Blackened(p.up.sib))))
    }

    /** Parent black, grandparent red, ready for the rotation at the grandparent. */
    static function Hoisted(t: Tree, p: Path): Tree
      requires !p.Top? && !p.up.Top?
    {
      Reddened(Up(Blackened(Up(t, p)), p.up))
    }

    /** Colours do not enter the in-order sequence. */
    static lemma WholeIgnoresColor(t: Tree, p: Path, c: Color)
      ensures t.Node? ==> Whole(t.(color := c), p) == Whole(t, p) && All(t.(color := c), p) == All(t, p)
      ensures !p.Top? && p.sib.Node? ==>
                Whole(t, p.(sib := p.sib.(color := c)))
                  == Whole(t, p) && All(t, p.(sib := p.sib.(color := c))) == All(t, p)
    {
    }

    static lemma RecoloredWhole(t: Tree, p: Path)
      requires !p.Top? && !p.up.Top? && IsRed(p.up.sib)
      ensures Whole(Recolored(t, p), p.up.up) == Whole(t, p) && All(Recolored(t, p), p.up.up) == All(t, p)
    {
      hide Whole, All;
      WholeUp(t, p);
      var t1 := Blackened(Up(t, p));
      WholeIgnoresColor(Up(t, p), p.up, BLACK);
      WholeIgnoresColor(t1, p.up, BLACK);
      WholeUp(t1, p.up.(sib := Blackened(p.up.sib)));
      WholeIgnoresColor(Up(t1, p.up.(sib := Blackened(p.up.sib))), p.up.up, RED);
    }

    static lemma HoistedWhole(t: Tree, p: Path)
      requires !p.Top? && !p.up.Top?
      ensures Whole(Hoisted(t, p), p.up.up) == Whole(t, p) && All(Hoisted(t, p), p.up.up) == All(t, p)
    {
      hide Whole, All;
      WholeUp(t, p);
      var t1 := Blackened(Up(t, p));
      WholeIgnoresColor(Up(t, p), p.up, BLACK);
      WholeUp(t1, p.up);
      WholeIgnoresColor(Up(t1, p.up), p.up.up, RED);
    }

    static lemma RecoloredRules(t: Tree, p: Path, h: int)
      requires RB(t, h) && PathRB(p, h) && RedPath(p) && IsRed(p.up.sib)
      ensures RB(Recolored(t, p), h + 1) && PathRB(p.up.up, h + 1)
    {
      var t1 := Blackened(Up(t, p));
      assert RB(t1, h + 1);
      assert RB(Blackened(p.up.sib), h + 1);
      assert PathRB(p.up, h);
    }

    /** The rotation that ends the insertion, with z hanging on the outer side. */
    static lemma HoistedRules(t: Tree, p: Path, h: int)
      requires RB(t, h) && PathRB(p, h) && RedPath(p) && !IsRed(p.up.sib)
      ensures p.GoLeft? && p.up.GoLeft? ==>
                && LeftChild(Hoisted(t, p))
                && var r := RotatedRight(Hoisted(t, p));
                   && r == Node(t, p.node, BLACK, Node(p.sib, p.up.node, RED, p.up.sib))
                   && PathRB(GoLeft(p.up.up, p.node, BLACK, r.right), h)
      ensures p.GoRight? && p.up.GoRight? ==>
                && RightChild(Hoisted(t, p))
                && var r := RotatedLeft(Hoisted(t, p));
                   && r == Node(Node(p.up.sib, p.up.node, RED, p.sib), p.node, BLACK, t)
                   && PathRB(GoRight(p.up.up, p.node, BLACK, r.left), h)
    {
      assert PathRB(p.up, h);
      assert RB(Node(p.sib, p.up.node, RED, p.up.sib), h) && RB(Node(p.up.sib, p.up.node, RED, p.sib), h);
    }

    /** The rotation that brings z to the outer side first: what was its parent is the new z. */
    static lemma InnerRules(t: Tree, p: Path, h: int)
      requires RB(t, h) && IsRed(t) && PathRB(p, h) && RedPath(p) && !IsRed(p.up.sib)
      ensures p.GoRight? ==>
                && RightChild(Up(t, p))
                && var r := RotatedLeft(Up(t, p));
                   var p' := GoLeft(p.up, r.node, RED, r.right);
                   && r.color == RED && IsRed(r.left) && r.left.node == p.node && RB(r.left, h) && PathRB(p', h)
                   && Up(r.left, p') == r
      ensures p.GoLeft? ==>
                && LeftChild(Up(t, p))
                && var r := RotatedRight(Up(t, p));
                   var p' := GoRight(p.up, r.node, RED, r.left);
                   && r.color == RED && IsRed(r.right) && r.right.node == p.node && RB(r.right, h) && PathRB(p', h)
                   && Up(r.right, p') == r
    {
    }

    method Recolor(z: RbNode, y: RbNode, ghost t: Tree, ghost p: Path) returns (gp: RbNode)
      requires Zip(t, p) && z.parent == PathNode(p)
      requires !p.Top? && !p.up.Top? && IsRed(p.up.sib) && y == p.up.sib.node
      modifies PathNodes(p)
      ensures gp == p.up.node && gp.parent == PathNode(p.up.up) && Zip(Recolored(t, p), p.up.up)
    {
      AboveFacts(t, p);
      ghost var t1, p1 := Up(t, p), p.up;
      AboveFacts(t1, p1);
      hide Linked, Hung, Distinct, PathDistinct, Apart, Zip, Whole, All, Inorder, Nodes, PathNodes;
      Paint(z.parent, BLACK, t1, p1);
      ghost var t2 := Blackened(t1);
      PaintUncle(y, t2, p1);
      ghost var p2 := p1.(sib := Blackened(p1.sib));
      HereFacts(t2, p2);
      AboveFacts(t2, p2);
      gp := z.parent.parent;
      Paint(gp, RED, Up(t2, p2), p1.up);
      HereFacts(Recolored(t, p), p.up.up);
    }

    method PaintUncle(y: RbNode, ghost t: Tree, ghost p: Path)
      requires Zip(t, p) && t.Node? && !p.Top? && IsRed(p.sib) && y == p.sib.node
      modifies y`color
      ensures Zip(t, p.(sib := Blackened(p.sib)))
    {
      AboveFacts(t, p);
      hide Linked, Hung, Distinct, PathDistinct, Apart, Zip, Whole, All, Inorder, Nodes, PathNodes;
      Paint(y, BLACK, p.sib, Cross(t, p));
      ghost var u := Blackened(p.sib);
      assert Cross(u, Cross(t, p)) == p.(sib := u);
      AboveFacts(u, Cross(t, p));
    }

    /** The two colour changes before the last rotation. */
    method Hoist(z: RbNode, ghost t: Tree, ghost p: Path) returns (gp: RbNode)
      requires Zip(t, p) && z.parent == PathNode(p)
      requires !p.Top? && !p.up.Top?
      modifies PathNodes(p)
      ensures gp == p.up.node && Zip(Hoisted(t, p), p.up.up)
    {
      AboveFacts(t, p);
      ghost var t1, p1 := Up(t, p), p.up;
      hide Linked, Hung, Distinct, PathDistinct, Apart, Zip, Whole, All, Inorder, Nodes, PathNodes;
      AboveFacts(t1, p1);
      Paint(z.parent, BLACK, t1, p1);
      ghost var t2 := Blackened(t1);
      HereFacts(t2, p1);
      AboveFacts(t2, p1);
      gp := z.parent.parent;
      Paint(gp, RED, Up(t2, p1), p1.up);
    }

    /** Position (t, p) with the red node z at its top: every rule holds but perhaps the one
        between z and its parent. Or else z knows its parent but is not linked to the tree, and
        the position is the empty place below the parent, on the outer side. */
    ghost predicate Fixing(z: RbNode, t: Tree, p: Path, h: int)
      reads this`root, z, Nodes(t), PathNodes(p)
    {
      && Zip(t, p) && RB(t, h) && PathRB(p, h) && z.parent == PathNode(p)
      && if t.Node? then IsRed(t) && t.node == z
         else z != nil && z !in PathNodes(p) && !p.Top? && (RedPath(p) ==> (p.GoLeft? <==> p.up.GoLeft?))
    }

    method RotateInnerLeft(z: RbNode, ghost t: Tree, ghost p: Path, ghost h: int)
      returns (z': RbNode, ghost t': Tree, ghost p': Path)
      requires Fixing(z, t, p, h) && t.Node? && RedPath(p) && p.GoRight? && !IsRed(p.up.sib)
      modifies this`root, All(t, p)
      ensures Fixing(z', t', p', h) && t'.Node?
      ensures p'.GoLeft? && p'.color == RED && p'.up == p.up && Depth(p') == Depth(p)
      ensures Whole(t', p') == Whole(t, p) && All(t', p') == All(t, p)
    {
      HereFacts(t, p);
      AboveFacts(t, p);
      z' := z.parent;
      InnerRules(t, p, h);
      WholeUp(t, p);
      hide Linked, Hung, Distinct, PathDistinct, RB, PathRB;
      ghost var u := Up(t, p);
      RotationKeepsOrder(u);
      LeftRotate(z', u, p.up);
      ghost var r := RotatedLeft(u);
      t', p' := r.left, GoLeft(p.up, r.node, RED, r.right);
      ZipUp(t', p');
      HereFacts(t', p');
      WholeUp(t', p');
    }

    method RotateInnerRight(z: RbNode, ghost t: Tree, ghost p: Path, ghost h: int)
      returns (z': RbNode, ghost t': Tree, ghost p': Path)
      requires Fixing(z, t, p, h) && t.Node? && RedPath(p) && p.GoLeft? && !IsRed(p.up.sib)
      modifies this`root, All(t, p)
      ensures Fixing(z', t', p', h) && t'.Node?
      ensures p'.GoRight? && p'.color == RED && p'.up == p.up && Depth(p') == Depth(p)
      ensures Whole(t', p') == Whole(t, p) && All(t', p') == All(t, p)
    {
      HereFacts(t, p);
      AboveFacts(t, p);
      z' := z.parent;
      InnerRules(t, p, h);
      WholeUp(t, p);
      hide Linked, Hung, Distinct, PathDistinct, RB, PathRB;
      ghost var u := Up(t, p);
      RotationKeepsOrder(u);
      RightRotate(z', u, p.up);
      ghost var r := RotatedRight(u);
      t', p' := r.right, GoRight(p.up, r.node, RED, r.left);
      ZipUp(t', p');
      HereFacts(t', p');
      WholeUp(t', p');
    }

    /** What the tests of the fixup loop read: the parent, the grandparent and the uncle. */
    lemma FixingFacts(z: RbNode, t: Tree, p: Path, h: int)
      requires Fixing(z, t, p, h) && nil.color == BLACK
      ensures PathNode(p).color == RED <==> RedPath(p)
      ensures RedPath(p) ==>
                && !p.up.Top? && !RedPath(p.up) && p.node.parent == p.up.node
                && (p.node == p.up.node.left <==> p.up.GoLeft?)
                && TopNode(p.up.sib) == (if p.up.GoLeft? then p.up.node.right else p.up.node.left)
                && (TopNode(p.up.sib).color == RED <==> IsRed(p.up.sib))
                && (z == p.node.left <==> t.Node? && p.GoLeft?) && (z == p.node.right <==> t.Node? && p.GoRight?)
                && (t.Leaf? ==> (p.GoLeft? <==> p.up.GoLeft?))
    {
      if t.Node? {
        HereFacts(t, p);
      }
      if !p.Top? {
        AboveFacts(t, p);
        if RedPath(p) {
          var t1 := Up(t, p);
          AboveFacts(t1, p.up);
          if p.up.sib.Node? {
            HereFacts(p.up.sib, Cross(t1, p.up));
          }
        }
      }
    }

    static lemma {:induction false} PlugIsNode(t: Tree, p: Path)
      requires t.Node? || !p.Top?
      ensures Plug(t, p).Node?
      decreases p
    {
      if !p.Top? {
        PlugIsNode(Up(t, p), p.up);
      }
    }

    /** Blackening the root of what the loop leaves: it was red only if z came to be the root. */
    static lemma BlackRoot(t: Tree, p: Path, h: int)
      requires RB(t, h) && (IsRed(t) || !p.Top?) && PathRB(p, h) && !RedPath(p)
      ensures Plug(t, p).Node? && IsRedBlack(Blackened(Plug(t, p)))
    {
      PlugIsNode(t, p);
      if p.Top? {
        assert RB(Blackened(t), h + 1);
      } else {
        PlugRB(t, p, h);
      }
    }

    /** The end of an insertion: parent black, grandparent red, and the grandparent rotated. */
    method RotateOuterRight(z: RbNode, ghost t: Tree, ghost p: Path, ghost h: int) returns (ghost p': Path)
      requires Fixing(z, t, p, h) && RedPath(p) && p.GoLeft? && p.up.GoLeft? && !IsRed(p.up.sib)
      modifies this`root, All(t, p)
      ensures Fixing(z, t, p', h) && !RedPath(p') && Depth(p') < Depth(p)
      ensures Whole(t, p') == Whole(t, p) && All(t, p') == All(t, p)
    {
      HoistedRules(t, p, h);
      HoistedWhole(t, p);
      hide Linked, Hung, Distinct, PathDistinct, RB, PathRB, Before, After, Inorder;
      var gp := Hoist(z, t, p);
      ghost var g := Hoisted(t, p);
      RotationKeepsOrder(g);
      RightRotate(gp, g, p.up.up);
      ghost var r := RotatedRight(g);
      p' := GoLeft(p.up.up, r.node, BLACK, r.right);
      ZipUp(t, p');
      WholeUp(t, p');
    }

    /** The end of an insertion: parent black, grandparent red, and the grandparent rotated. */
    method RotateOuterLeft(z: RbNode, ghost t: Tree, ghost p: Path, ghost h: int) returns (ghost p': Path)
      requires Fixing(z, t, p, h) && RedPath(p) && p.GoRight? && p.up.GoRight? && !IsRed(p.up.sib)
      modifies this`root, All(t, p)
      ensures Fixing(z, t, p', h) && !RedPath(p') && Depth(p') < Depth(p)
      ensures Whole(t, p') == Whole(t, p) && All(t, p') == All(t, p)
    {
      HoistedRules(t, p, h);
      HoistedWhole(t, p);
      hide Linked, Hung, Distinct, PathDistinct, RB, PathRB, Before, After, Inorder;
      var gp := Hoist(z, t, p);
      ghost var g := Hoisted(t, p);
      RotationKeepsOrder(g);
      LeftRotate(gp, g, p.up.up);
      ghost var r := RotatedLeft(g);
      p' := GoRight(p.up.up, r.node, BLACK, r.left);
      ZipUp(t, p');
      WholeUp(t, p');
    }

    /** The last statement of the fixup: the root goes black. */
    method BlackenRoot(ghost t: Tree, ghost p: Path, ghost h: int) returns (ghost s: Tree)
      requires Zip(t, p) && RB(t, h) && (IsRed(t) || !p.Top?) && PathRB(p, h) && !RedPath(p)
      modifies All(t, p)
      ensures Zip(s, Top) && IsRedBlack(s)
      ensures Inorder(s) == Whole(t, p) && Nodes(s) == All(t, p)
    {
      ZipPlug(t, p);
      PlugInorder(t, p);
      PlugNodes(t, p);
      ghost var w := Plug(t, p);
      PlugIsNode(t, p);
      HereFacts(w, Top);
      BlackRoot(t, p, h);
      hide Linked, Hung, Distinct, PathDistinct, RB, PathRB, Plug;
      Paint(root, BLACK, w, Top);
      s := Blackened(w);
    }

    method InsertFixup(z0: RbNode, ghost t0: Tree, ghost p0: Path, ghost h0: int) returns (ghost s: Tree)
      requires Fixing(z0, t0, p0, h0) && nil.color == BLACK
      modifies this`root, All(t0, p0)
      ensures Zip(s, Top) && IsRedBlack(s) && nil.color == BLACK
      ensures Inorder(s) == Whole(t0, p0) && Nodes(s) == All(t0, p0)
    {
      hide Linked, Hung, Distinct, PathDistinct, RB, PathRB, Whole, Inorder;
      var z := z0;
      ghost var t, p, h := t0, p0, h0;
      FixingFacts(z, t, p, h);
      while z.parent.color == RED
        invariant Fixing(z, t, p, h) && nil.color == BLACK
        invariant z.parent == PathNode(p) && (PathNode(p).color == RED <==> RedPath(p))
        invariant Whole(t, p) == Whole(t0, p0) && All(t, p) == All(t0, p0)
        decreases Depth(p)
      {
        FixingFacts(z, t, p, h);
        assert Depth(p.up.up) < Depth(p.up) < Depth(p);
        if z.parent == z.parent.parent.left {
          var y: RbNode := z.parent.parent.right;
          if y.color == RED {
            RecoloredRules(t, p, h);
            RecoloredWhole(t, p);
            z := Recolor(z, y, t, p);
            t, p, h := Recolored(t, p), p.up.up, h + 1;
          } else {
            if z == z.parent.right {
              z, t, p := RotateInnerLeft(z, t, p, h);
            }
            p := RotateOuterRight(z, t, p, h);
          }
        } else {
          var y: RbNode := z.parent.parent.left;
          if y.color == RED {
            RecoloredRules(t, p, h);
            RecoloredWhole(t, p);
            z := Recolor(z, y, t, p);
            t, p, h := Recolored(t, p), p.up.up, h + 1;
          } else {
            if z == z.parent.left {
              z, t, p := RotateInnerRight(z, t, p, h);
            }
            p := RotateOuterLeft(z, t, p, h);
          }
        }
        FixingFacts(z, t, p, h);
      }
      s := BlackenRoot(t, p, h);
    }

    /** A comparator that orders the new node consistently with the sequence: negative from some
        position on, not before. It may find the new node equal to others. */
    static ghost predicate Consistent(cmp: RbNode -> int, s: seq<RbNode>) {
      forall i, j :: 0 <= i < j < |s| && cmp(s[i]) < 0 ==> cmp(s[j]) < 0
    }

    /** The position where the new node belongs. */
    static ghost predicate Splits(cmp: RbNode -> int, s: seq<RbNode>, k: int) {
      && 0 <= k <= |s|
      && (forall i :: 0 <= i < k ==> cmp(s[i]) >= 0)
      && (forall i :: k <= i < |s| ==> cmp(s[i]) < 0)
    }

    /** What the comparator says of the last node that the descent meets. */
    static function LastCompare(t: Tree, cmp: RbNode -> int, last: int): int {
      if t.Leaf? then last
      else LastCompare(if cmp(t.node) < 0 then t.left else t.right, cmp, cmp(t.node))
    }

    /** The new node gets linked: no node found equal is the last one met. */
    static predicate Links(t: Tree, cmp: RbNode -> int) {
      t.Leaf? || LastCompare(t, cmp, 0) != 0
    }

    /** It always is when the comparator never says equal. */
    static lemma {:induction false} NoTieLinks(t: Tree, cmp: RbNode -> int, last: int)
      requires forall n :: n in Nodes(t) ==> cmp(n) != 0
      ensures Links(t, cmp) && (last != 0 ==> LastCompare(t, cmp, last) != 0)
    {
      if t.Node? {
        NoTieLinks(if cmp(t.node) < 0 then t.left else t.right, cmp, cmp(t.node));
      }
    }

    /** Node number i of the in-order sequence has a right child. */
    static function HasRight(t: Tree, i: int): bool
      requires 0 <= i < |Inorder(t)|
    {
      var n := |Inorder(t.left)|;
      if i < n then HasRight(t.left, i)
      else if i == n then t.right.Node?
      else HasRight(t.right, i - n - 1)
    }

    /** The new node is dropped exactly when the node before its place is found equal and has no
        right child. */
    static lemma LinksIff(t: Tree, cmp: RbNode -> int, k: int)
      requires Splits(cmp, Inorder(t), k)
      ensures Links(t, cmp) <==> t.Leaf? || k == 0 || cmp(Inorder(t)[k - 1]) != 0 || HasRight(t, k - 1)
    {
      if t.Node? {
        LastCompareIs(t, cmp, 0, k);
      }
    }

    static lemma {:induction false} LastCompareIs(t: Tree, cmp: RbNode -> int, last: int, k: int)
      requires t.Node? && Splits(cmp, Inorder(t), k)
      ensures LastCompare(t, cmp, last) == 0 <==> k > 0 && cmp(Inorder(t)[k - 1]) == 0 && !HasRight(t, k - 1)
    {
      var l, r, n := Inorder(t.left), Inorder(t.right), |Inorder(t.left)|;
      InorderAt(t);
      if cmp(t.node) < 0 {
        assert k <= n;
        if t.left.Node? {
          assert Splits(cmp, l, k);
          LastCompareIs(t.left, cmp, cmp(t.node), k);
        }
      } else {
        assert k > n;
        if t.right.Node? {
          assert Splits(cmp, r, k - n - 1);
          LastCompareIs(t.right, cmp, cmp(t.node), k - n - 1);
        }
      }
    }

    static lemma InorderAt(t: Tree)
      requires t.Node?
      ensures var s, l, r := Inorder(t), Inorder(t.left), Inorder(t.right);
              && |s| == |l| + 1 + |r| && s[|l|] == t.node
              && (forall i :: 0 <= i < |l| ==> s[i] == l[i])
              && (forall i :: 0 <= i < |r| ==> s[|l| + 1 + i] == r[i])
    {
    }

    /** The new node belongs into t, given what is left and right of it. */
    static ghost predicate Between(cmp: RbNode -> int, p: Path) {
      && (forall n :: n in Before(p) ==> cmp(n) >= 0)
      && (forall n :: n in After(p) ==> cmp(n) < 0)
    }

    /** One step of the descent keeps the new node's place between Before and After. */
    static lemma DescendLeft(cmp: RbNode -> int, s: seq<RbNode>, t: Tree, p: Path)
      requires t.Node? && s == Whole(t, p) && Consistent(cmp, s) && Between(cmp, p)
      requires cmp(t.node) < 0
      ensures Between(cmp, GoLeft(p, t.node, t.color, t.right))
    {
      var p' := GoLeft(p, t.node, t.color, t.right);
      var k := |Before(p)| + |Inorder(t.left)|;
      assert s == (Before(p) + Inorder(t.left)) + After(p');
      assert s[k] == t.node;
      forall n | n in After(p') ensures cmp(n) < 0 {
        var j :| 0 <= j < |After(p')| && After(p')[j] == n;
        assert s[k + j] == n;
      }
    }

    static lemma DescendRight(cmp: RbNode -> int, s: seq<RbNode>, t: Tree, p: Path)
      requires t.Node? && s == Whole(t, p) && Consistent(cmp, s) && Between(cmp, p)
      requires cmp(t.node) >= 0
      ensures Between(cmp, GoRight(p, t.node, t.color, t.left))
    {
      var p' := GoRight(p, t.node, t.color, t.left);
      var k := |Before(p)| + |Inorder(t.left)|;
      assert s == Before(p') + (Inorder(t.right) + After(p));
      assert s[k] == t.node;
      forall n | n in Before(p') ensures cmp(n) >= 0 {
        var j :| 0 <= j < |Before(p')| && Before(p')[j] == n;
        assert s[j] == n;
      }
    }

    /** The colour rules of the place where the descent ends. */
    static ghost predicate DescentRules(t: Tree, p: Path, h: int) {
      RB(t, h) && PathRB(p, h) && (RedPath(p) ==> !IsRed(t)) && (p.Top? ==> !IsRed(t))
    }

    static lemma DescendRules(t: Tree, p: Path, h: int)
      requires t.Node? && DescentRules(t, p, h)
      ensures var h' := if t.color == BLACK then h - 1 else h;
              && DescentRules(t.left, GoLeft(p, t.node, t.color, t.right), h')
              && DescentRules(t.right, GoRight(p, t.node, t.color, t.left), h')
    {
    }

    /** Everything the descent keeps, for one step to the side the comparator names. */
    lemma DescendOnce(cmp: RbNode -> int, s: seq<RbNode>, t: Tree, p: Path, h: int, left: bool)
      requires Zip(t, p) && t.Node? && s == Whole(t, p) && Consistent(cmp, s) && Between(cmp, p)
      requires DescentRules(t, p, h) && (left <==> cmp(t.node) < 0)
      ensures t.node != nil && Child(t.node, left) == TopNode(Near(t, left))
      ensures var p' := Go(left, p, t.node, t.color, Far(t, left));
              && Zip(Near(t, left), p') && Between(cmp, p')
              && DescentRules(Near(t, left), p', if t.color == BLACK then h - 1 else h)
              && Whole(Near(t, left), p') == s && All(Near(t, left), p') == All(t, p)
    {
      HereFacts(t, p);
      var p' := Go(left, p, t.node, t.color, Far(t, left));
      ZipUp(Near(t, left), p');
      WholeUp(Near(t, left), p');
      DescendRules(t, p, h);
      hide Linked, Hung, Distinct, PathDistinct, Apart, Zip, Inorder, Nodes, PathNodes, Before, After, Whole, All;
      hide DescentRules;
      if left {
        DescendLeft(cmp, s, t, p);
      } else {
        DescendRight(cmp, s, t, p);
      }
    }

    lemma NilIsLeaf(t: Tree, p: Path)
      requires Zip(t, p)
      ensures TopNode(t) == nil <==> t == Leaf
    {
    }

    lemma DescentStarts(cmp: RbNode -> int) returns (h: int)
      requires Valid()
      ensures Zip(shape, Top) && root == TopNode(shape)
      ensures Whole(shape, Top) == Inorder(shape) && All(shape, Top) == Nodes(shape)
      ensures Between(cmp, Top) && DescentRules(shape, Top, h)
    {
      h :| RB(shape, h);
      WholeTop(shape);
    }

    /** The descent of rb_insert to the place where the new node belongs. */
    method Descend(cmp: RbNode -> int) returns (y: RbNode, cmpResult: int, ghost p: Path, ghost h: int)
      requires Valid() && Consistent(cmp, Inorder(shape))
      ensures Zip(Leaf, p) && y == PathNode(p)
      ensures Whole(Leaf, p) == Inorder(shape) && All(Leaf, p) == Nodes(shape)
      ensures Between(cmp, p) && DescentRules(Leaf, p, h)
      ensures p.Top? <==> shape.Leaf?
      ensures !p.Top? ==> cmpResult == LastCompare(shape, cmp, 0) && (cmpResult < 0 <==> p.GoLeft?)
    {
      hide Linked, Hung, Distinct, PathDistinct, Apart, Zip, Inorder, Nodes, PathNodes, Before, After, Whole, All;
      hide Between, DescentRules, Consistent, RB;
      var x := root;
      ghost var s := Inorder(shape);
      ghost var t := shape;
      p := Path.Top;
      h := DescentStarts(cmp);
      y, cmpResult := nil, 0;
      while x != nil
        invariant Zip(t, p) && x == TopNode(t) && y == PathNode(p)
        invariant Whole(t, p) == s && All(t, p) == Nodes(shape)
        invariant Between(cmp, p) && DescentRules(t, p, h)
        invariant LastCompare(shape, cmp, 0) == LastCompare(t, cmp, cmpResult) && (p.Top? ==> t == shape)
        invariant !p.Top? ==> shape.Node? && (cmpResult < 0 <==> p.GoLeft?)
        decreases t
      {
        y := x;
        cmpResult := cmp(y);
        DescendOnce(cmp, s, t, p, h, cmpResult < 0);
        if cmpResult < 0 {
          x := x.left;
        } else {
          x := x.right;
        }
        h := if t.color == BLACK then h - 1 else h;
        p := Go(cmpResult < 0, p, t.node, t.color, Far(t, cmpResult < 0));
        t := Near(t, cmpResult < 0);
      }
      NilIsLeaf(t, p);
    }

    /** Hangs the new node, red, into the empty place, unless the last comparison said equal. */
    method Attach(z: RbNode, y: RbNode, cmpResult: int, ghost p: Path)
      requires Zip(Leaf, p) && y == PathNode(p) && z != nil && z !in PathNodes(p)
      requires !p.Top? ==> (cmpResult < 0 <==> p.GoLeft?)
      modifies this`root, z, PathNodes(p)
      ensures z.parent == PathNode(p)
      ensures Zip(if p.Top? || cmpResult != 0 then Node(Leaf, z, RED, Leaf) else Leaf, p)
    {
      z.parent := y;
      z.left := nil;
      z.right := nil;
      z.color := RED;
      if y == nil {
        root := z;
      } else if cmpResult < 0 {
        y.left := z;
      } else if cmpResult > 0 {
        y.right := z;
      }
    }

    /** The empty places below a red node are as good as each other; take the outer one. */
    ghost method TakeOuter(z: RbNode, p: Path, h: int) returns (p': Path)
      requires Zip(Leaf, p) && RB(Leaf, h) && PathRB(p, h) && !p.Top? && z.parent == PathNode(p)
      requires z != nil && z !in PathNodes(p)
      ensures Fixing(z, Leaf, p', h)
      ensures Whole(Leaf, p') == Whole(Leaf, p) && All(Leaf, p') == All(Leaf, p)
    {
      p' := p;
      if RedPath(p) && p.GoLeft? != p.up.GoLeft? {
        assert p.sib == Leaf by {
          OnlyLeaf(p.sib);
        }
        p' := Cross(Leaf, p);
        AboveFacts(Leaf, p);
        WholeUp(Leaf, p);
      }
    }

    static lemma OnlyLeaf(t: Tree)
      requires RB(t, 0) && !IsRed(t)
      ensures t == Leaf
    {
      if t.Node? {
        RBBounds(t.left, -1);
      }
    }

    /** rb_insert. The place of the new node is right of all nodes it is not to the left of. It is
        linked there, and the tree is a well-linked red-black tree again, unless the last node met
        is found equal: then the tree keeps its nodes and their order, although the fixup has run
        for the new node and the status is 0 as well. */
    method Insert(z: RbNode, cmp: RbNode -> int) returns (status: int)
      requires Valid() && z != nil && z !in Nodes(shape) && Consistent(cmp, Inorder(shape))
      modifies this, Nodes(shape), z
      ensures Valid() && status == 0
      ensures Nodes(shape) == old(Nodes(shape)) + if old(Links(shape, cmp)) then {z} else {}
      ensures exists k ::
                && Splits(cmp, old(Inorder(shape)), k)
                && Inorder(shape) == old(Inorder(shape))[..k] + (if old(Links(shape, cmp)) then [z] else [])
                                     + old(Inorder(shape))[k..]
    {
      hide Linked, Hung, Distinct, PathDistinct, Inorder, Before, After, Whole, LastCompare;
      ghost var s := Inorder(shape);
      var y, cmpResult;
      ghost var p, h;
      y, cmpResult, p, h := Descend(cmp);
      Attach(z, y, cmpResult, p);
      ghost var t := if p.Top? || cmpResult != 0 then Node(Leaf, z, RED, Leaf) else Leaf;
      PlaceIs(cmp, s, t, z, p);
      if t.Leaf? {
        p := TakeOuter(z, p, h);
      }
      shape := InsertFixup(z, t, p, h);
      return 0;
    }

    /** Why Insert needs the black root that Delete may have lost: hang z below a red root, and
        the fixup loop starts with the sentinel for z's grandparent. Neither of its links leads
        back to z's parent, so the uncle that the loop looks at is the sentinel's left link, and
        that is NULL. */
    lemma RedRootTrapsInsert(z: RbNode, t: Tree, p: Path)
      requires Zip(t, p) && t.Node? && t.node == z && !p.Top? && p.up.Top? && p.color == RED
      requires nil.left == null && nil.right == null
      ensures z.parent == root && root.color == RED
      ensures root.parent == nil && root.parent.left != root
      ensures root.parent.left == null
    {
      assert Hung(p, z) && Hung(p.up, p.node) && Linked(t, p.node);
    }

    static lemma PlaceIs(cmp: RbNode -> int, s: seq<RbNode>, t: Tree, z: RbNode, p: Path)
      requires s == Whole(Leaf, p) && Between(cmp, p) && t in {Leaf, Node(Leaf, z, RED, Leaf)}
      ensures var k := |Before(p)|;
              Splits(cmp, s, k) && Whole(t, p) == s[..k] + (if t.Leaf? then [] else [z]) + s[k..]
    {
      assert s == Before(p) + After(p);
      assert Inorder(t) == if t.Leaf? then [] else [z];
    }

    // -------------------------------------------------------------- deletion: the fixup

    static function Child(n: RbNode, left: bool): RbNode?
      reads n
    {
      if left then n.left else n.right
    }

    static function Rotated(t: Tree, left: bool): Tree
      requires t.Node? && Far(t, left).Node?
    {
      if left then RotatedLeft(t) else RotatedRight(t)
    }

    method Rotate(x: RbNode, left: bool, ghost t: Tree, ghost p: Path)
      requires Zip(t, p) && t.Node? && Far(t, left).Node? && t.node == x
      modifies this`root, All(t, p)
      ensures Zip(Rotated(t, left), p)
    {
      if left {
        LeftRotate(x, t, p);
      } else {
        RightRotate(x, t, p);
      }
    }

    method PaintAbove(n: RbNode, c: Color, ghost t: Tree, ghost p: Path)
      requires Zip(t, p) && !p.Top? && p.node == n
      modifies n`color
      ensures Zip(t, p.(color := c))
    {
      AboveFacts(t, p);
      Paint(n, c, Up(t, p), p.up);
      ZipUp(t, p.(color := c));
    }

    method PaintSibling(w: RbNode, c: Color, ghost t: Tree, ghost p: Path)
      requires Zip(t, p) && !p.Top? && p.sib.Node? && p.sib.node == w
      modifies w`color
      ensures Zip(t, p.(sib := p.sib.(color := c)))
    {
      AboveFacts(t, p);
      Paint(w, c, p.sib, Cross(t, p));
      ghost var s := p.sib.(color := c);
      AboveFacts(s, Cross(t, p));
      assert Cross(s, Cross(t, p)) == p.(sib := s);
    }

    /** Paints a child of the sibling. */
    method PaintNephew(v: RbNode, c: Color, left: bool, ghost t: Tree, ghost p: Path)
      requires Zip(t, p) && !p.Top? && p.sib.Node? && Near(p.sib, left).Node? && Near(p.sib, left).node == v
      modifies v`color
      ensures var v := Near(p.sib, left).(color := c);
              Zip(t, p.(sib := Make(left, v, p.sib.node, p.sib.color, Far(p.sib, left))))
    {
      AboveFacts(t, p);
      ghost var q := Go(left, Cross(t, p), p.sib.node, p.sib.color, Far(p.sib, left));
      ghost var n := Near(p.sib, left);
      ZipUp(n, q);
      Paint(v, c, n, q);
      ghost var n' := n.(color := c);
      ZipUp(n', q);
      ghost var s := Up(n', q);
      AboveFacts(s, Cross(t, p));
      assert Cross(s, Cross(t, p)) == p.(sib := s);
    }

    /** x, perhaps the sentinel, is the top of subtree t at path p and knows its parent. */
    ghost predicate Sits(x: RbNode, t: Tree, p: Path)
      reads this`root, Nodes(t), PathNodes(p), nil
    {
      Zip(t, p) && x == TopNode(t) && x.parent == PathNode(p) && nil.color == BLACK
    }

    /** After the parent of x has been rotated down on x's side, x still sits below it. */
    lemma SitsAfterRotation(x: RbNode, t: Tree, p: Path, left: bool, r: Tree)
      requires !p.Top? && p.sib.Node? && p.GoLeft? == left
      requires r == Rotated(Up(t, p), left)
      requires Zip(r, p.up) && x == TopNode(t) && (t.Leaf? ==> x.parent == p.node)
      ensures var up' := Go(left, p.up, p.sib.node, p.sib.color, Far(p.sib, left));
              var p' := Go(left, up', p.node, p.color, Near(p.sib, left));
              && Zip(t, p') && x.parent == PathNode(p')
              && Whole(t, p') == Whole(t, p) && All(t, p') == All(t, p)
    {
      var up' := Go(left, p.up, p.sib.node, p.sib.color, Far(p.sib, left));
      var p' := Go(left, up', p.node, p.color, Near(p.sib, left));
      assert Up(Up(t, p'), up') == r;
      RotationKeepsOrder(Up(t, p));
      hide Linked, Hung, Distinct, PathDistinct, Whole, Inorder;
      ZipUp(Up(t, p'), up');
      ZipUp(t, p');
      WholeRotated(t, p, left);
      WholeUp(t, p');
      WholeUp(Up(t, p'), up');
      if t.Node? {
        HereFacts(t, p');
      }
    }

    static lemma WholeRotated(t: Tree, p: Path, left: bool)
      requires !p.Top? && p.sib.Node? && p.GoLeft? == left
      ensures Whole(Rotated(Up(t, p), left), p.up) == Whole(t, p) && All(Rotated(Up(t, p), left), p.up) == All(t, p)
    {
      WholeUp(t, p);
      RotationKeepsOrder(Up(t, p));
    }

    static lemma WholeIgnoresPathColor(t: Tree, p: Path, c: Color)
      requires !p.Top?
      ensures Whole(t, p.(color := c)) == Whole(t, p) && All(t, p.(color := c)) == All(t, p)
    {
    }

    method PaintRedSibling(x: RbNode, w: RbNode, ghost t: Tree, ghost p: Path)
      requires Sits(x, t, p) && !p.Top? && p.sib.Node? && p.sib.node == w
      modifies All(t, p)
      ensures var p2 := p.(sib := Blackened(p.sib), color := RED);
              Sits(x, t, p2) && Whole(t, p2) == Whole(t, p) && All(t, p2) == All(t, p)
    {
      AboveFacts(t, p);
      hide Linked, Hung, Distinct, PathDistinct, Apart, Zip, Whole, All, Inorder, Nodes, PathNodes;
      PaintSibling(w, BLACK, t, p);
      ghost var p1 := p.(sib := Blackened(p.sib));
      WholeIgnoresColor(t, p, BLACK);
      PaintAbove(x.parent, RED, t, p1);
      WholeIgnoresPathColor(t, p1, RED);
    }

    /** Red sibling: w black, parent red, parent rotated towards x. */
    method FixRedSibling(x: RbNode, w: RbNode, left: bool, ghost t: Tree, ghost p: Path)
      requires Sits(x, t, p) && !p.Top? && p.GoLeft? == left && IsRed(p.sib) && p.sib.node == w
      modifies this`root, All(t, p)
      ensures Sits(x, t, AfterRedSibling(p))
      ensures Whole(t, AfterRedSibling(p)) == Whole(t, p) && All(t, AfterRedSibling(p)) == All(t, p)
    {
      hide Linked, Hung, Distinct, PathDistinct, Apart, Zip, Whole, All, Inorder, Nodes, PathNodes;
      PaintRedSibling(x, w, t, p);
      ghost var p2 := p.(sib := Blackened(p.sib), color := RED);
      AboveFacts(t, p2);
      Rotate(x.parent, left, Up(t, p2), p2.up);
      SitsAfterRotation(x, t, p2, left, Rotated(Up(t, p2), left));
    }

    method PaintNearNephew(x: RbNode, w: RbNode, left: bool, ghost t: Tree, ghost p: Path)
      requires Sits(x, t, p) && !p.Top? && p.GoLeft? == left && p.sib.Node? && p.sib.node == w
      requires !IsRed(p.sib) && IsRed(Near(p.sib, left))
      modifies All(t, p)
      ensures Sits(x, t, p.(sib := Make(left, Blackened(Near(p.sib, left)), w, RED, Far(p.sib, left))))
    {
      AboveFacts(t, p);
      HereFacts(p.sib, Cross(t, p));
      FarIsInside(t, p, left);
      hide Linked, Hung, Distinct, PathDistinct, Apart, Zip, Whole, All, Inorder, Nodes, PathNodes;
      PaintNephew(Child(w, left), BLACK, left, t, p);
      PaintSibling(w, RED, t, p.(sib := Make(left, Blackened(Near(p.sib, left)), w, BLACK, Far(p.sib, left))));
    }

    /** Black sibling, far child black: near child black, w red, w rotated away from x. */
    method FixNearNephew(x: RbNode, w: RbNode, left: bool, ghost t: Tree, ghost p: Path)
      requires Sits(x, t, p) && !p.Top? && p.GoLeft? == left && p.sib.Node? && p.sib.node == w
      requires !IsRed(p.sib) && IsRed(Near(p.sib, left))
      modifies this`root, All(t, p)
      ensures Sits(x, t, AfterNearNephew(p))
      ensures Whole(t, AfterNearNephew(p)) == Whole(t, p) && All(t, AfterNearNephew(p)) == All(t, p)
    {
      NearNephewAll(t, p, left);
      NearNephewWhole(t, p, left);
      hide Linked, Hung, Distinct, PathDistinct, Apart, Zip, Whole, All, Inorder, Nodes, PathNodes;
      PaintNearNephew(x, w, left, t, p);
      ghost var s2 := Make(left, Blackened(Near(p.sib, left)), w, RED, Far(p.sib, left));
      ghost var q := Cross(t, p.(sib := s2));
      AboveFacts(t, p.(sib := s2));
      Rotate(w, !left, s2, q);
      ghost var s3 := Rotated(s2, !left);
      AboveFacts(s3, q);
      assert Cross(s3, q) == p.(sib := s3) == AfterNearNephew(p);
      if t.Node? {
        HereFacts(t, AfterNearNephew(p));
      }
    }

    static lemma NearNephewAll(t: Tree, p: Path, left: bool)
      requires !p.Top? && p.sib.Node? && IsRed(Near(p.sib, left))
      ensures var near := Blackened(Near(p.sib, left));
              All(t, p.(sib := Make(left, near, p.sib.node, RED, Far(p.sib, left)))) == All(t, p)
    {
      var near := Blackened(Near(p.sib, left));
      assert Nodes(Make(left, near, p.sib.node, RED, Far(p.sib, left))) == Nodes(p.sib);
    }

    static lemma NearNephewWhole(t: Tree, p: Path, left: bool)
      requires !p.Top? && p.GoLeft? == left && p.sib.Node? && IsRed(Near(p.sib, left)) && !IsRed(p.sib)
      ensures Whole(t, AfterNearNephew(p)) == Whole(t, p) && All(t, AfterNearNephew(p)) == All(t, p)
    {
      var near := Near(p.sib, left);
      var s1 := Make(left, near, p.sib.node, RED, Far(p.sib, left));
      RotationKeepsOrder(s1);
      assert Inorder(AfterNearNephew(p).sib) == Inorder(p.sib) && Nodes(AfterNearNephew(p).sib) == Nodes(p.sib);
    }

    method PaintFarNephew(x: RbNode, w: RbNode, left: bool, ghost t: Tree, ghost p: Path)
      requires Sits(x, t, p) && !p.Top? && p.GoLeft? == left && p.sib.Node? && p.sib.node == w
      requires IsRed(Far(p.sib, left))
      modifies All(t, p)
      ensures var far := Blackened(Far(p.sib, left));
              Sits(x, t, p.(sib := Make(left, Near(p.sib, left), w, p.color, far), color := BLACK))
    {
      AboveFacts(t, p);
      FarIsInside(t, p, left);
      hide Linked, Hung, Distinct, PathDistinct, Apart, Zip, Whole, All, Inorder, Nodes, PathNodes;
      PaintSibling(w, x.parent.color, t, p);
      ghost var p1 := p.(sib := p.sib.(color := p.color));
      PaintAbove(x.parent, BLACK, t, p1);
      ghost var p2 := p1.(color := BLACK);
      AboveFacts(t, p2);
      HereFacts(p2.sib, Cross(t, p2));
      PaintNephew(Child(w, !left), BLACK, !left, t, p2);
    }

    static lemma FarIsInside(t: Tree, p: Path, left: bool)
      requires !p.Top? && p.sib.Node?
      ensures Far(p.sib, left).Node? ==> Far(p.sib, left).node in All(t, p)
      ensures Near(p.sib, left).Node? ==> Near(p.sib, left).node in All(t, p)
    {
      assert Nodes(p.sib) == Nodes(p.sib.left) + {p.sib.node} + Nodes(p.sib.right);
      assert Nodes(p.sib) <= All(t, p);
    }

    /** Black sibling, far child red: w takes the parent's colour, parent and far child go black,
        the parent is rotated towards x; x goes to the root. */
    method FixFarNephew(x: RbNode, w: RbNode, left: bool, ghost t: Tree, ghost p: Path)
      requires Sits(x, t, p) && !p.Top? && p.GoLeft? == left && p.sib.Node? && p.sib.node == w
      requires IsRed(Far(p.sib, left))
      modifies this`root, All(t, p)
      ensures Zip(AfterFarNephew(t, p), p.up) && nil.color == BLACK
      ensures Whole(AfterFarNephew(t, p), p.up) == Whole(t, p) && All(AfterFarNephew(t, p), p.up) == All(t, p)
    {
      FarNephewAll(t, p, left);
      FarNephewWhole(t, p, left);
      hide Linked, Hung, Distinct, PathDistinct, Apart, Zip, Whole, All, Inorder, Nodes, PathNodes;
      PaintFarNephew(x, w, left, t, p);
      ghost var far := Blackened(Far(p.sib, left));
      ghost var p3 := p.(sib := Make(left, Near(p.sib, left), w, p.color, far), color := BLACK);
      AboveFacts(t, p3);
      Rotate(x.parent, left, Up(t, p3), p3.up);
      assert Rotated(Up(t, p3), left) == AfterFarNephew(t, p);
    }

    static lemma FarNephewAll(t: Tree, p: Path, left: bool)
      requires !p.Top? && p.sib.Node? && IsRed(Far(p.sib, left))
      ensures var far := Blackened(Far(p.sib, left));
              All(t, p.(sib := Make(left, Near(p.sib, left), p.sib.node, p.color, far), color := BLACK)) == All(t, p)
    {
      var far := Blackened(Far(p.sib, left));
      assert Nodes(Make(left, Near(p.sib, left), p.sib.node, p.color, far)) == Nodes(p.sib);
    }

    static lemma FarNephewWhole(t: Tree, p: Path, left: bool)
      requires !p.Top? && p.GoLeft? == left && p.sib.Node? && IsRed(Far(p.sib, left))
      ensures Whole(AfterFarNephew(t, p), p.up) == Whole(t, p) && All(AfterFarNephew(t, p), p.up) == All(t, p)
    {
      var s3 := Make(left, Near(p.sib, left), p.sib.node, p.color, Blackened(Far(p.sib, left)));
      var p3 := p.(sib := s3, color := BLACK);
      assert Inorder(s3) == Inorder(p.sib) && Nodes(s3) == Nodes(p.sib);
      assert Whole(t, p3) == Whole(t, p) && All(t, p3) == All(t, p);
      WholeRotated(t, p3, left);
    }

    lemma {:induction false} RootIsOnPath(p: Path, x: RbNode)
      requires Hung(p, x)
      ensures if p.Top? then root == x else root in PathNodes(p)
      decreases p
    {
      if !p.Top? {
        RootIsOnPath(p.up, p.node);
      }
    }

    lemma TopColor(t: Tree, p: Path)
      requires Zip(t, p) && nil.color == BLACK
      ensures TopNode(t).color == RED <==> IsRed(t)
    {
    }

    /** What the loop test of the deletion fixup reads. */
    lemma LoopFacts(x: RbNode, t: Tree, p: Path)
      requires Sits(x, t, p)
      ensures x == root <==> p.Top?
      ensures x.color == RED <==> IsRed(t)
    {
      RootIsOnPath(p, x);
    }

    /** What its body reads: side, sibling and nephews. */
    lemma SiblingFacts(x: RbNode, t: Tree, p: Path)
      requires Sits(x, t, p) && !p.Top? && p.sib.Node?
      ensures x.parent == p.node && (x == p.node.left <==> p.GoLeft?)
      ensures Child(p.node, !p.GoLeft?) == p.sib.node
      ensures p.sib.node.color == RED <==> IsRed(p.sib)
      ensures forall left :: Child(p.sib.node, left) == TopNode(Near(p.sib, left))
                             && (TopNode(Near(p.sib, left)).color == RED <==> IsRed(Near(p.sib, left)))
    {
      AboveFacts(t, p);
      HereFacts(p.sib, Cross(t, p));
      forall left: bool
        ensures TopNode(Near(p.sib, left)).color == RED <==> IsRed(Near(p.sib, left))
      {
        var q := Go(left, Cross(t, p), p.sib.node, p.sib.color, Far(p.sib, left));
        ZipUp(Near(p.sib, left), q);
        TopColor(Near(p.sib, left), q);
      }
    }

    /** Black sibling with two black children: w red, and x moves up. */
    method FixBlackNephews(x: RbNode, w: RbNode, ghost t: Tree, ghost p: Path) returns (x': RbNode)
      requires Sits(x, t, p) && !p.Top? && p.sib.Node? && p.sib.node == w
      modifies w`color
      ensures var t' := Up(t, p.(sib := p.sib.(color := RED)));
              && Sits(x', t', p.up)
              && Whole(t', p.up) == Whole(t, p) && All(t', p.up) == All(t, p)
    {
      hide Linked, Hung, Distinct, PathDistinct, Apart, Zip, Whole, All, Inorder, Nodes, PathNodes;
      AboveFacts(t, p);
      HereFacts(p.sib, Cross(t, p));
      PaintSibling(w, RED, t, p);
      WholeIgnoresColor(t, p, RED);
      ghost var p1 := p.(sib := p.sib.(color := RED));
      AboveFacts(t, p1);
      WholeUp(t, p1);
      x' := x.parent;
    }

    /** Black sibling with a red child: one or two rotations end the fixup at the root. */
    method FixRedNephew(x: RbNode, left: bool, ghost t: Tree, ghost p: Path, ghost h: int)
      returns (ghost t': Tree, ghost h': int)
      requires Sits(x, t, p) && Short(t, p, h) && !IsRed(t)
      requires !p.Top? && p.GoLeft? == left && p.sib.Node? && !IsRed(p.sib)
      requires IsRed(p.sib.left) || IsRed(p.sib.right)
      modifies this`root, All(t, p)
      ensures Sits(root, t', Top) && Short(t', Top, h') && !IsRed(t')
      ensures Whole(t', Top) == Whole(t, p) && All(t', Top) == All(t, p)
    {
      SiblingFacts(x, t, p);
      hide Linked, Hung, Distinct, PathDistinct, Whole, Inorder, Short, Before, After, PathNodes, Nodes, All;
      var w := Child(x.parent, !left);
      ghost var q := p;
      if Child(w, !left).color == BLACK {
        NearNephewRules(t, p, h);
        FixNearNephew(x, w, left, t, p);
        q := AfterNearNephew(p);
        SiblingFacts(x, t, q);
        w := Child(x.parent, !left);
      }
      h' := FarNephewRules(t, q, h);
      FixFarNephew(x, w, left, t, q);
      t' := AtRoot(AfterFarNephew(t, q), q.up);
    }

    /** The same tree, seen from the root. */
    ghost method AtRoot(t: Tree, p: Path) returns (t': Tree)
      requires Zip(t, p) && t.Node? && nil.color == BLACK
      ensures t' == Plug(t, p) && Sits(root, t', Top)
      ensures Whole(t', Top) == Whole(t, p) && All(t', Top) == All(t, p)
    {
      t' := Plug(t, p);
      ZipPlug(t, p);
      WholePlug(t, p);
      PlugIsNode(t, p);
      HereFacts(t', Top);
      RootIsTop(t');
    }

    lemma RootIsTop(t: Tree)
      requires Zip(t, Top)
      ensures root == TopNode(t)
    {
    }

    static lemma WholePlug(t: Tree, p: Path)
      ensures Whole(Plug(t, p), Top) == Whole(t, p) && All(Plug(t, p), Top) == All(t, p)
      ensures Whole(Plug(t, p), Top) == Inorder(Plug(t, p)) && All(Plug(t, p), Top) == Nodes(Plug(t, p))
    {
      PlugInorder(t, p);
      PlugNodes(t, p);
    }

    static function Measure(t: Tree, p: Path): nat {
      Depth(p) + if IsRed(t) then 0 else 1
    }

    /** The rest of the loop body once the sibling is black. */
    method FixBlackSibling(x: RbNode, left: bool, ghost t: Tree, ghost p: Path, ghost h: int)
      returns (x': RbNode, ghost t': Tree, ghost p': Path, ghost h': int)
      requires Sits(x, t, p) && Short(t, p, h) && !IsRed(t)
      requires !p.Top? && p.GoLeft? == left && p.sib.Node? && !IsRed(p.sib)
      modifies this`root, All(t, p)
      ensures Sits(x', t', p') && Short(t', p', h') && EndsRed(t', p') == EndsRed(t, p)
      ensures Whole(t', p') == Whole(t, p) && All(t', p') == All(t, p)
      ensures Measure(t', p') <= Depth(p) + if p.color == RED then -1 else 0
    {
      SiblingFacts(x, t, p);
      assert Depth(p) == 1 + Depth(p.up) && p.sib.node in All(t, p);
      hide Linked, Hung, Distinct, PathDistinct, Whole, Inorder, Short, RB, PathRB, All;
      var w := Child(x.parent, !left);
      if Child(w, left).color == BLACK && Child(w, !left).color == BLACK {
        BlackNephewsRules(t, p, h);
        x' := FixBlackNephews(x, w, t, p);
        t', p', h' := Up(t, p.(sib := p.sib.(color := RED))), p.up, if p.color == RED then h else h + 1;
      } else {
        t', h' := FixRedNephew(x, left, t, p, h);
        p' := Top;
        x' := root;
      }
    }

    static lemma RedSiblingDepth(p: Path)
      requires !p.Top? && IsRed(p.sib)
      ensures AfterRedSibling(p).color == RED && Depth(AfterRedSibling(p)) == 1 + Depth(p)
    {
      var q := AfterRedSibling(p);
      assert Depth(q) == 1 + Depth(q.up) && q.up.up == p.up;
      assert Depth(q.up) == 1 + Depth(p.up) == Depth(p);
    }

    /** One round of the fixup loop. */
    method FixRound(x: RbNode, ghost t: Tree, ghost p: Path, ghost h: int)
      returns (x': RbNode, ghost t': Tree, ghost p': Path, ghost h': int)
      requires Sits(x, t, p) && Short(t, p, h) && !IsRed(t) && !p.Top?
      modifies this`root, All(t, p)
      ensures Sits(x', t', p') && Short(t', p', h') && EndsRed(t', p') == EndsRed(t, p)
      ensures Whole(t', p') == Whole(t, p) && All(t', p') == All(t, p)
      ensures Measure(t', p') < Measure(t, p)
    {
      SiblingIsThere(t, p, h);
      SiblingFacts(x, t, p);
      hide Linked, Hung, Distinct, PathDistinct, Whole, Inorder, Short, RB, PathRB, All;
      var left := x == x.parent.left;
      var w := Child(x.parent, !left);
      ghost var q := p;
      if w.color == RED {
        RedSiblingRules(t, p, h);
        FixRedSibling(x, w, left, t, p);
        q := AfterRedSibling(p);
        RedSiblingDepth(p);
      }
      x', t', p', h' := FixBlackSibling(x, left, t, q, h);
    }

    /** The fixup after a deletion: it terminates, keeps the sequence and every link, and ends
        with the colour rules met exactly when EndsRed was false where it began. */
    method DeleteFixup(x0: RbNode, ghost t0: Tree, ghost p0: Path, ghost h0: int) returns (ghost s: Tree)
      requires Sits(x0, t0, p0) && Short(t0, p0, h0)
      modifies this`root, All(t0, p0)
      ensures Zip(s, Top) && nil.color == BLACK
      ensures Inorder(s) == Whole(t0, p0) && Nodes(s) == All(t0, p0)
      ensures IsRedBlack(s) <==> !EndsRed(t0, p0)
    {
      hide Linked, Hung, Distinct, PathDistinct, Whole, Inorder, Short, RB, PathRB, All;
      var x := x0;
      ghost var t, p, h := t0, p0, h0;
      LoopFacts(x, t, p);
      while x != root && x.color == BLACK
        invariant Sits(x, t, p) && Short(t, p, h)
        invariant (x == root <==> p.Top?) && (x.color == RED <==> IsRed(t))
        invariant EndsRed(t, p) == EndsRed(t0, p0)
        invariant Whole(t, p) == Whole(t0, p0) && All(t, p) == All(t0, p0)
        decreases Measure(t, p)
      {
        x, t, p, h := FixRound(x, t, p, h);
        LoopFacts(x, t, p);
      }
      s := Plug(t, p);
      ZipPlug(t, p);
      WholePlug(t, p);
      ShortIsRedBlackIff(t, p, h);
    }

    // -------------------------------------------------------------- deletion

    /** Looking z up leads to a position that still is the whole tree, with its colour rules. */
    lemma {:induction false} LocateFacts(t: Tree, p: Path, z: RbNode, h: int) returns (k: int)
      requires Zip(t, p) && z in Nodes(t) && DescentRules(t, p, h)
      ensures var (s, q) := Locate(t, p, z);
              && s.Node? && s.node == z && Zip(s, q) && DescentRules(s, q, k)
              && Whole(s, q) == Whole(t, p) && All(s, q) == All(t, p)
      decreases t
    {
      hide Whole, All;
      if t.node == z {
        k := h;
      } else {
        DescendRules(t, p, h);
        var left := z in Nodes(t.left);
        var q := Go(left, p, t.node, t.color, Far(t, left));
        ZipUp(Near(t, left), q);
        WholeUp(Near(t, left), q);
        k := LocateFacts(Near(t, left), q, z, if t.color == BLACK then h - 1 else h);
      }
    }

    lemma {:induction false} MinZip(t: Tree, p: Path)
      requires Zip(t, p) && t.Node?
      ensures var (m, q) := Min(t, p); Zip(m, q) && All(m, q) == All(t, p)
      decreases t
    {
      hide All;
      if t.left.Node? {
        var q := GoLeft(p, t.node, t.color, t.right);
        ZipUp(t.left, q);
        WholeUp(t.left, q);
        MinZip(t.left, q);
      }
    }

    static lemma {:induction false} MinRules(t: Tree, p: Path, h: int) returns (k: int)
      requires t.Node? && DescentRules(t, p, h)
      ensures var (m, q) := Min(t, p); DescentRules(m, q, k)
      decreases t
    {
      if t.left.Leaf? {
        k := h;
      } else {
        DescendRules(t, p, h);
        k := MinRules(t.left, GoLeft(p, t.node, t.color, t.right), if t.color == BLACK then h - 1 else h);
      }
    }

    /** With the minimum's right subtree in the minimum's place, the tree is the tree without it. */
    lemma {:induction false} ZipWithoutMin(t: Tree, p: Path)
      requires t.Node?
      ensures Zip(Min(t, p).0.right, Min(t, p).1) <==> Zip(WithoutMin(t), p)
      decreases t
    {
      if t.left.Node? {
        var q := GoLeft(p, t.node, t.color, t.right);
        ZipWithoutMin(t.left, q);
        ZipUp(WithoutMin(t.left), q);
      }
    }

    /** rb_tree_minimum. */
    method Minimum(x0: RbNode, ghost t0: Tree, ghost p0: Path) returns (x: RbNode)
      requires Zip(t0, p0) && t0.Node? && t0.node == x0
      ensures x == Min(t0, p0).0.node
    {
      x := x0;
      ghost var t, p := t0, p0;
      HereFacts(t, p);
      while x.left != nil
        invariant Zip(t, p) && t.Node? && t.node == x && x.left == TopNode(t.left)
        invariant Min(t, p) == Min(t0, p0)
        decreases t
      {
        x := x.left;
        t, p := t.left, GoLeft(p, t.node, t.color, t.right);
        ZipUp(t, p);
        HereFacts(t, p);
      }
    }

    /** rb_transplant of u by one of its subtrees s: the rest of the tree closes over u. */
    method Splice(u: RbNode, v: RbNode, ghost t: Tree, ghost p: Path, ghost s: Tree)
      requires Zip(t, p) && t.Node? && t.node == u && (s == t.left || s == t.right) && v == TopNode(s)
      requires nil.color == BLACK
      modifies this`root, v`parent, PathNodes(p)
      ensures Sits(v, s, p)
    {
      assert Linked(s, u) && Distinct(s) && nil !in Nodes(s);
      assert s.Node? ==> s.node in Nodes(s) && Linked(s.left, s.node) && Linked(s.right, s.node);
      assert allocated(Nodes(s));
      assert s.Node? ==> allocated(Nodes(s.left)) && allocated(Nodes(s.right));
      HereFacts(t, p);
      Replace(u, v, p);
    }

    lemma PiecesApart(l: Tree, n: RbNode, c: Color, r: Tree, p: Path)
      requires Apart(Node(l, n, c, r), p)
      ensures n !in Nodes(l) && n !in Nodes(r) && n !in PathNodes(p) && n != nil
      ensures Nodes(l) !! Nodes(r) && Nodes(l) !! PathNodes(p) && Nodes(r) !! PathNodes(p)
      ensures Distinct(l) && Distinct(r) && PathDistinct(p)
      ensures nil !in Nodes(l) && nil !in Nodes(r) && nil !in PathNodes(p)
    {
    }

    /** The node next in order takes z's place: its right subtree r is already below it. */
    method TakePlace(y: RbNode, z: RbNode, ghost l: Tree, ghost c: Color, ghost r: Tree, ghost p: Path)
      requires Apart(Node(l, z, c, r), p) && Apart(Node(l, y, c, r), p) && y != z && l.Node?
      requires Linked(l, z) && Linked(r, y) && Hung(p, z) && y.right == TopNode(r)
      requires z.parent == PathNode(p) && z.left == TopNode(l) && z.color == c
      modifies this`root, y, z, Nodes(l), PathNodes(p)
      ensures Zip(Node(l, y, c, r), p)
    {
      hide Linked, Hung, Distinct, PathDistinct, Nodes, PathNodes;
      PiecesApart(l, z, c, r, p);
      PiecesApart(l, y, c, r, p);
      assert allocated(Nodes(l)) && allocated(Nodes(r)) && allocated(PathNodes(p));
      Replace(z, y, p);
      y.left := z.left;
      Adopt(z.left, y, l, z);
      y.color := z.color;
      assert Holds(y, PathNode(p), c, l, r);
      LinkedIsHolds(Node(l, y, c, r), PathNode(p));
    }

    /** What the unlinking part of rb_delete leaves to the fixup: x tops subtree t at path p, the
        in-order sequence is s without its element at k, and the colour rules are met, short
        of one black node if that is what was unlinked. */
    ghost predicate Unlinked(x: RbNode, t: Tree, p: Path, h: int, was: Color, s: seq<RbNode>, k: int)
      reads this`root, Nodes(t), PathNodes(p), nil
    {
      && Sits(x, t, p)
      && 0 <= k < |s| && Whole(t, p) == s[..k] + s[k + 1..]
      && if was == BLACK then Short(t, p, h) else DescentRules(t, p, h)
    }

    /** Unlinking a node that has the sentinel for a child. */
    static lemma UnlinkRules(m: Tree, p: Path, h: int)
      requires m.Node? && (m.left.Leaf? || m.right.Leaf?) && DescentRules(m, p, h)
      ensures if m.color == BLACK then Short(Rest(m), p, h - 1) else DescentRules(Rest(m), p, h)
    {
      RBChildren(m, h);
      if IsRed(Rest(m)) {
        RBChildren(Rest(m), if m.color == BLACK then h - 1 else h);
      }
    }

    static lemma CutWhole(m: Tree, p: Path)
      requires m.Node? && (m.left.Leaf? || m.right.Leaf?)
      ensures var s, k := Whole(m, p), |Before(p) + Inorder(m.left)|;
              && k < |s| && s[k] == m.node
              && Whole(Rest(m), p) == s[..k] + s[k + 1..]
    {
      var a, b := Before(p) + Inorder(m.left), Inorder(m.right) + After(p);
      Spread(Before(p), Inorder(m.left), [m.node], Inorder(m.right), After(p));
      SeqCut(Whole(m, p), a, m.node, b);
      Assoc(Before(p), Inorder(m.left), After(p));
      Assoc(Before(p), Inorder(m.right), After(p));
    }

    static lemma CutAll(m: Tree, p: Path)
      requires m.Node? && (m.left.Leaf? || m.right.Leaf?)
      ensures All(m, p) == All(Rest(m), p) + {m.node}
    {
      assert Nodes(m) == Nodes(Rest(m)) + {m.node};
    }

    /** The first two cases of rb_delete: z has at most one child. */
    method UnlinkOuter(z: RbNode, v: RbNode, ghost m: Tree, ghost p: Path, ghost h: int) returns (ghost k: int)
      requires Zip(m, p) && m.Node? && m.node == z && (m.left.Leaf? || m.right.Leaf?)
      requires v == TopNode(Rest(m)) && DescentRules(m, p, h) && nil.color == BLACK
      modifies this`root, v`parent, PathNodes(p)
      ensures Unlinked(v, Rest(m), p, if m.color == BLACK then h - 1 else h, m.color, Whole(m, p), k)
      ensures Whole(m, p)[k] == z
    {
      hide Linked, Hung, Distinct, PathDistinct, Whole, Inorder, Short, DescentRules, All, Zip, Before, Unlinked;
      k := |Before(p) + Inorder(m.left)|;
      Splice(z, v, m, p, Rest(m));
      OuterUnlinked(v, m, p, h);
    }

    lemma OuterUnlinked(v: RbNode, m: Tree, p: Path, h: int)
      requires m.Node? && (m.left.Leaf? || m.right.Leaf?) && DescentRules(m, p, h) && Sits(v, Rest(m), p)
      ensures var k := |Before(p) + Inorder(m.left)|;
              && Unlinked(v, Rest(m), p, if m.color == BLACK then h - 1 else h, m.color, Whole(m, p), k)
              && Whole(m, p)[k] == m.node
    {
      hide Sits, Whole, Short, DescentRules;
      UnlinkRules(m, p, h);
      CutWhole(m, p);
    }

    /** The third case: with y, the minimum of z's right subtree, in z's place, the sequence has
        lost exactly z. */
    static lemma InnerWhole(l: Tree, z: RbNode, c: Color, r: Tree, p: Path, y: RbNode)
      requires r.Node? && y == Min(r, GoRight(p, y, c, l)).0.node
      ensures var (m, q) := Min(r, GoRight(p, y, c, l));
              var s, k := Whole(Node(l, z, c, r), p), |Before(p) + Inorder(l)|;
              && k < |s| && s[k] == z
              && Whole(m.right, q) == s[..k] + s[k + 1..]
    {
      hide Nodes, PathNodes, Distinct;
      var base := GoRight(p, y, c, l);
      var (m, q) := Min(r, base);
      MinWhole(r, base);
      var a, b := Before(p) + Inorder(l), Inorder(r) + After(p);
      Spread(Before(p), Inorder(l), [z], Inorder(r), After(p));
      SeqCut(Whole(Node(l, z, c, r), p), a, z, b);
      RegroupTail(a, [y], Inorder(m.right), After(q));
    }

    static lemma RegroupTail<T>(a: seq<T>, b: seq<T>, c: seq<T>, d: seq<T>)
      ensures (a + b) + c + d == a + (b + c + d)
    {
    }

    static lemma InnerAll(l: Tree, z: RbNode, c: Color, r: Tree, p: Path, y: RbNode)
      requires r.Node? && y == Min(r, GoRight(p, y, c, l)).0.node
      ensures var (m, q) := Min(r, GoRight(p, y, c, l));
              All(m.right, q) == Nodes(l) + Nodes(r) + PathNodes(p)
    {
      hide Inorder, Before, After;
      var base := GoRight(p, y, c, l);
      var (m, q) := Min(r, base);
      MinWhole(r, base);
      PathHas(r, base, y);
      assert PathNodes(base) == {y} + Nodes(l) + PathNodes(p);
    }

    static lemma {:induction false} PathHas(t: Tree, p: Path, n: RbNode)
      requires t.Node? && n in PathNodes(p)
      ensures n in PathNodes(Min(t, p).1)
      decreases t
    {
      if t.left.Node? {
        PathHas(t.left, GoLeft(p, t.node, t.color, t.right), n);
      }
    }

    static lemma InnerRulesKept(z: RbNode, y: RbNode, c: Color, l: Tree, r: Tree, p: Path, h: int)
      requires r.Node? && DescentRules(Min(r, GoRight(p, z, c, l)).0, Min(r, GoRight(p, z, c, l)).1, h)
      ensures var (m, q) := Min(r, GoRight(p, z, c, l));
              var (m', q') := Min(r, GoRight(p, y, c, l));
              && m' == m && EndsRed(m.right, q') == EndsRed(m.right, q)
              && if m.color == BLACK then Short(m.right, q', h - 1) else DescentRules(m.right, q', h)
    {
      var (m, q) := Min(r, GoRight(p, z, c, l));
      AlikeRefl(p);
      MinAlike(r, GoRight(p, z, c, l), GoRight(p, y, c, l));
      var q' := Min(r, GoRight(p, y, c, l)).1;
      AlikeRules(m.right, q, q', h);
      UnlinkRules(m, q', h);
      assert Rest(m) == m.right;
    }

    lemma MoveUpFacts(y: RbNode, z: RbNode, l: Tree, c: Color, r: Tree, p: Path)
      requires Zip(Node(l, z, c, r), p) && l.Node? && r.Node?
      requires y == Min(r, GoRight(p, z, c, l)).0.node
      ensures var (m, q) := Min(r, GoRight(p, z, c, l));
              && Zip(m, q) && All(m, q) == All(Node(l, z, c, r), p)
              && y.right == TopNode(m.right) && y in Nodes(r)
              && Apart(Node(l, y, c, WithoutMin(r)), p)
    {
      var base := GoRight(p, z, c, l);
      var m := Min(r, base).0;
      ZipUp(r, base);
      MinZip(r, base);
      HereFacts(m, Min(r, base).1);
      MinWhole(r, base);
      PiecesApart(l, z, c, r, p);
      MinNodes(r);
      AlikeTop(r, base);
    }

    lemma MovedUp(x: RbNode, y: RbNode, z: RbNode, l: Tree, c: Color, r: Tree, p: Path)
      requires r.Node? && Zip(Node(l, y, c, WithoutMin(r)), p) && nil.color == BLACK
      requires var (m, q) := Min(r, GoRight(p, z, c, l));
               x == TopNode(m.right) && (m.right.Leaf? ==> nil.parent == (if r.left.Leaf? then y else PathNode(q)))
      ensures var (m, q) := Min(r, GoRight(p, y, c, l)); Sits(x, m.right, q)
    {
      var base := GoRight(p, y, c, l);
      AlikeRefl(p);
      MinAlike(r, GoRight(p, z, c, l), base);
      ZipUp(WithoutMin(r), base);
      ZipWithoutMin(r, base);
      var (m, q) := Min(r, base);
      if m.right.Node? {
        HereFacts(m.right, q);
      }
    }

    /** y, already unlinked, takes over both subtrees and the place of z. */
    method Settle(y: RbNode, z: RbNode, ghost l: Tree, ghost c: Color, ghost r: Tree, ghost p: Path)
      requires Zip(Node(l, z, c, r), p) && Apart(Node(l, y, c, r), p) && y != z && l.Node? && r.Node?
      modifies this`root, y, z, Nodes(l), Nodes(r), PathNodes(p)
      ensures Zip(Node(l, y, c, r), p)
    {
      hide Distinct, PathDistinct, Hung, Linked, Nodes, PathNodes;
      LinkedIsHolds(Node(l, z, c, r), PathNode(p));
      PiecesApart(l, z, c, r, p);
      PiecesApart(l, y, c, r, p);
      assert allocated(Nodes(l)) && allocated(Nodes(r)) && allocated(PathNodes(p));
      y.right := z.right;
      Adopt(y.right, y, r, z);
      TakePlace(y, z, l, c, r, p);
    }

    /** Relinking y from below z's right child into z's place. */
    method MoveUp(y: RbNode, z: RbNode, ghost l: Tree, ghost c: Color, ghost r: Tree, ghost p: Path) returns (x: RbNode)
      requires Zip(Node(l, z, c, r), p) && l.Node? && r.Node? && nil.color == BLACK
      requires y == Min(r, GoRight(p, z, c, l)).0.node && r.left.Node?
      modifies this`root, nil`parent, All(Node(l, z, c, r), p)
      ensures Zip(Node(l, y, c, WithoutMin(r)), p)
      ensures var (m, q) := Min(r, GoRight(p, y, c, l)); Sits(x, m.right, q)
    {
      ghost var t, base := Node(l, z, c, r), GoRight(p, z, c, l);
      ghost var m, q := Min(r, base).0, Min(r, base).1;
      MoveUpFacts(y, z, l, c, r, p);
      ghost var r' := WithoutMin(r);
      assert y != z && y in All(t, p) && r'.Node?;
      SettleFrame(l, z, c, r, p);
      hide Distinct, PathDistinct, Hung, Linked, Min, WithoutMin, Nodes, PathNodes, All;
      x := y.right;
      Splice(y, x, m, q, m.right);
      ZipWithoutMin(r, base);
      ZipUp(r', base);
      ghost var np := nil.parent;
      Settle(y, z, l, c, r', p);
      MovedUp(x, y, z, l, c, r, p);
    }

    static lemma SettleFrame(l: Tree, z: RbNode, c: Color, r: Tree, p: Path)
      requires r.Node? && Distinct(r)
      ensures var a := All(Node(l, z, c, r), p);
              z in a && Nodes(l) <= a && Nodes(WithoutMin(r)) <= a && PathNodes(p) <= a
              && PathNodes(Min(r, GoRight(p, z, c, l)).1) <= a
    {
      MinNodes(r);
      MinWhole(r, GoRight(p, z, c, l));
    }

    /** The successor is z's right child itself: its right subtree stays, and x, even the
        sentinel, learns its parent. */
    method AdoptInPlace(x: RbNode, y: RbNode, ghost b: Tree)
      requires Linked(b, y) && Distinct(b) && x == TopNode(b) && nil !in Nodes(b)
      modifies x`parent
      ensures Linked(b, y) && x.parent == y
    {
      assert b.Node? ==> Linked(b.left, x) && Linked(b.right, x);
      x.parent := y;
    }

    method TakeRight(y: RbNode, z: RbNode, ghost l: Tree, ghost c: Color, ghost r: Tree,
                     ghost p: Path) returns (x: RbNode)
      requires Zip(Node(l, z, c, r), p) && l.Node? && r.Node? && nil.color == BLACK
      requires r.left.Leaf? && r.node == y
      modifies this`root, nil`parent, All(Node(l, z, c, r), p)
      ensures Zip(Node(l, y, c, WithoutMin(r)), p)
      ensures var (m, q) := Min(r, GoRight(p, y, c, l)); Sits(x, m.right, q)
    {
      MoveUpFacts(y, z, l, c, r, p);
      SettleFrame(l, z, c, r, p);
      PiecesApart(l, z, c, r, p);
      PiecesApart(l, y, c, r.right, p);
      assert WithoutMin(r) == r.right && Min(r, GoRight(p, z, c, l)) == (r, GoRight(p, z, c, l));
      assert y != z && y in All(Node(l, z, c, r), p) && (r.right.Node? ==> r.right.node in All(Node(l, z, c, r), p));
      assert nil != y && nil != z;
      LinkedIsHolds(Node(l, z, c, r), PathNode(p));
      LinkedIsHolds(r, z);
      hide Distinct, PathDistinct, Hung, Linked, Min, WithoutMin, Nodes, PathNodes, All;
      assert allocated(Nodes(l)) && allocated(Nodes(r.right)) && allocated(PathNodes(p));
      x := y.right;
      AdoptInPlace(x, y, r.right);
      TakePlace(y, z, l, c, r.right, p);
      MovedUp(x, y, z, l, c, r, p);
    }

    lemma InnerBefore(z: RbNode, l: Tree, c: Color, r: Tree, p: Path, h: int) returns (k: int)
      requires Zip(Node(l, z, c, r), p) && l.Node? && r.Node? && DescentRules(Node(l, z, c, r), p, h)
      ensures z.right == r.node && Zip(r, GoRight(p, z, c, l))
      ensures var (m, q) := Min(r, GoRight(p, z, c, l));
              var (m', q') := Min(r, GoRight(p, m.node, c, l));
              && m.node.color == m.color && m' == m && m.node in Nodes(r) && (m.node == r.node <==> r.left.Leaf?)
              && EndsRed(m.right, q') == EndsRed(m.right, q)
              && if m.color == BLACK then Short(m.right, q', k) else DescentRules(m.right, q', k)
    {
      var here, base := Node(l, z, c, r), GoRight(p, z, c, l);
      HereFacts(here, p);
      ZipUp(r, base);
      var (m, q) := Min(r, base);
      MinZip(r, base);
      HereFacts(m, q);
      DescendRules(here, p, h);
      var h' := MinRules(r, base, if c == BLACK then h - 1 else h);
      InnerRulesKept(z, m.node, c, l, r, p, h');
      k := if m.color == BLACK then h' - 1 else h';
      MinIsBelow(r, base);
      MinWhole(r, base);
    }

    static lemma MinIsBelow(t: Tree, p: Path)
      requires t.Node? && Distinct(t)
      ensures Min(t, p).0.node == t.node <==> t.left.Leaf?
    {
      if t.left.Node? {
        MinWhole(t.left, GoLeft(p, t.node, t.color, t.right));
      }
    }

    /** The successor y is relinked, from below z's right child or as that child itself. */
    method Succeed(y: RbNode, z: RbNode, ghost l: Tree, ghost c: Color, ghost r: Tree,
                   ghost p: Path) returns (x: RbNode)
      requires Zip(Node(l, z, c, r), p) && l.Node? && r.Node? && nil.color == BLACK
      requires y == Min(r, GoRight(p, z, c, l)).0.node && z.right == r.node && (y == r.node <==> r.left.Leaf?)
      modifies this`root, nil`parent, All(Node(l, z, c, r), p)
      ensures var (m, q) := Min(r, GoRight(p, y, c, l)); Sits(x, m.right, q)
    {
      hide Distinct, PathDistinct, Hung, Linked, Nodes, PathNodes, All, Apart, Zip;
      if y != z.right {
        x := MoveUp(y, z, l, c, r, p);
      } else {
        x := TakeRight(y, z, l, c, r, p);
      }
    }

    /** Everything about the third case that can be said before anything is relinked. */
    lemma InnerFacts(z: RbNode, l: Tree, c: Color, r: Tree, p: Path, h: int) returns (h': int)
      requires Zip(Node(l, z, c, r), p) && l.Node? && r.Node? && DescentRules(Node(l, z, c, r), p, h)
      ensures z.right == r.node && Zip(r, GoRight(p, z, c, l))
      ensures var m := Min(r, GoRight(p, z, c, l)).0;
              && m.node.color == m.color && m.node in Nodes(r) && (m.node == r.node <==> r.left.Leaf?)
      ensures var (m, mp) := Min(r, GoRight(p, z, c, l));
              var (m', q) := Min(r, GoRight(p, m.node, c, l));
              var s, k := Whole(Node(l, z, c, r), p), |Before(p) + Inorder(l)|;
              && m' == m
              && k < |s| && s[k] == z && Whole(m.right, q) == s[..k] + s[k + 1..]
              && All(m.right, q) == All(Node(l, z, c, r), p) - {z}
              && EndsRed(m.right, q) == EndsRed(m.right, mp)
              && if m.color == BLACK then Short(m.right, q, h') else DescentRules(m.right, q, h')
    {
      h' := InnerBefore(z, l, c, r, p, h);
      hide Whole, All, EndsRed, Short, DescentRules, Nodes, PathNodes, Inorder, Before, Linked, Hung, Distinct;
      hide PathDistinct;
      var y := Min(r, GoRight(p, z, c, l)).0.node;
      InnerWhole(l, z, c, r, p, y);
      InnerAll(l, z, c, r, p, y);
      InnerAllIs(l, z, c, r, p);
    }

    /** The third case of rb_delete: z has two children, its successor takes its place. */
    method UnlinkInner(z: RbNode, ghost l: Tree, ghost c: Color, ghost r: Tree, ghost p: Path, ghost h: int)
      returns (x: RbNode, was: Color, ghost t: Tree, ghost q: Path, ghost h': int, ghost k: int)
      requires Zip(Node(l, z, c, r), p) && l.Node? && r.Node? && nil.color == BLACK
      requires DescentRules(Node(l, z, c, r), p, h)
      modifies this`root, nil`parent, All(Node(l, z, c, r), p)
      ensures Unlinked(x, t, q, h', was, Whole(Node(l, z, c, r), p), k)
      ensures Whole(Node(l, z, c, r), p)[k] == z && All(t, q) == All(Node(l, z, c, r), p) - {z}
      ensures var (m, mp) := Min(r, GoRight(p, z, c, l)); was == m.color && EndsRed(t, q) == EndsRed(m.right, mp)
    {
      h' := InnerFacts(z, l, c, r, p, h);
      ghost var y0 := Min(r, GoRight(p, z, c, l)).0.node;
      assert allocated(Nodes(Node(l, z, c, r))) && allocated(PathNodes(p)) && allocated(y0);
      hide Distinct, PathDistinct, Hung, Linked, Nodes, PathNodes, Whole, Inorder, Short, DescentRules, RB, Min;
      hide EndsRed, All, Apart;
      var y := Minimum(z.right, r, GoRight(p, z, c, l));
      was := y.color;
      x := Succeed(y, z, l, c, r, p);
      t, q, k := Min(r, GoRight(p, y, c, l)).0.right, Min(r, GoRight(p, y, c, l)).1, |Before(p) + Inorder(l)|;
    }

    lemma InnerAllIs(l: Tree, z: RbNode, c: Color, r: Tree, p: Path)
      requires Apart(Node(l, z, c, r), p)
      ensures Nodes(l) + Nodes(r) + PathNodes(p) == All(Node(l, z, c, r), p) - {z}
    {
    }

    /** rb_delete: z leaves the in-order sequence and nothing else does, every link is right
        again, and the result is a red-black tree exactly when DeleteRestores held before. */
    method Delete(z: RbNode)
      requires Valid() && z in Nodes(shape)
      modifies this, Nodes(shape), nil`parent
      ensures Zip(shape, Top) && nil.color == BLACK
      ensures Nodes(shape) == old(Nodes(shape)) - {z}
      ensures exists k ::
                && 0 <= k < |old(Inorder(shape))| && old(Inorder(shape))[k] == z
                && Inorder(shape) == old(Inorder(shape))[..k] + old(Inorder(shape))[k + 1..]
      ensures Valid() <==> old(DeleteRestores(shape, z))
    {
      ghost var h0 :| RB(shape, h0);
      ghost var h := LocateFacts(shape, Top, z, h0);
      ghost var here, p := Locate(shape, Top, z).0, Locate(shape, Top, z).1;
      WholeTop(shape);
      VictimIs(shape, z);
      hide Distinct, PathDistinct, Hung, Linked, Nodes, PathNodes, Whole, Inorder, Short, DescentRules, RB, Min;
      hide EndsRed, All, Locate, Zip, Victim, DeleteRestores;
      var x, was;
      ghost var t, q, h', k;
      x, was, t, q, h', k := Unlink(z, here, p, h);
      shape := Finish(x, was, t, q, h');
    }

    lemma VictimIs(t: Tree, z: RbNode)
      requires z in Nodes(t)
      ensures var (s, p) := Locate(t, Top, z);
              s.Node? ==> (DeleteRestores(t, z) <==> UnlinkRestores(s, p))
    {
    }

    /** DeleteRestores, asked at the position of the node to delete. */
    static ghost predicate UnlinkRestores(s: Tree, p: Path)
      requires s.Node?
    {
      var (m, q) := if s.left.Leaf? || s.right.Leaf? then (s, p) else Min(s.right, GoRight(p, s.node, s.color, s.left));
      m.color == RED || !EndsRed(Rest(m), q)
    }

    /** The three cases of rb_delete, up to the test of the unlinked node's colour. */
    method Unlink(z: RbNode, ghost s: Tree, ghost p: Path, ghost h: int)
      returns (x: RbNode, was: Color, ghost t: Tree, ghost q: Path, ghost h': int, ghost k: int)
      requires Zip(s, p) && s.Node? && s.node == z && DescentRules(s, p, h) && nil.color == BLACK
      modifies this`root, nil`parent, All(s, p)
      ensures Unlinked(x, t, q, h', was, Whole(s, p), k)
      ensures Whole(s, p)[k] == z && All(t, q) == All(s, p) - {z}
      ensures UnlinkRestores(s, p) <==> was == RED || !EndsRed(t, q)
    {
      HereFacts(s, p);
      UnlinkFrame(s, p);
      hide Distinct, PathDistinct, Hung, Linked, Nodes, PathNodes, Whole, Inorder, Short, DescentRules, RB, Min;
      hide EndsRed, All, Zip;
      if z.left == nil || z.right == nil {
        was := z.color;
        x := if z.left == nil then z.right else z.left;
        k := UnlinkOuter(z, x, s, p, h);
        t, q, h' := Rest(s), p, if s.color == BLACK then h - 1 else h;
      } else {
        x, was, t, q, h', k := UnlinkInner(z, s.left, s.color, s.right, p, h);
      }
    }

    /** Where the first two cases may write, and what they leave. */
    lemma UnlinkFrame(s: Tree, p: Path)
      requires Zip(s, p) && s.Node?
      ensures nil !in All(s, p) && PathNodes(p) <= All(s, p)
      ensures TopNode(Rest(s)) == nil || TopNode(Rest(s)) in All(s, p)
      ensures (s.node.left == nil <==> s.left.Leaf?) && (s.node.right == nil <==> s.right.Leaf?)
      ensures s.left.Leaf? || s.right.Leaf? ==> All(Rest(s), p) == All(s, p) - {s.node}
    {
      if s.left.Leaf? || s.right.Leaf? {
        CutAll(s, p);
      }
    }

    /** The end of rb_delete: the fixup runs only for a black node that was unlinked. */
    method Finish(x: RbNode, was: Color, ghost t: Tree, ghost p: Path, ghost h: int) returns (ghost s: Tree)
      requires Sits(x, t, p) && if was == BLACK then Short(t, p, h) else DescentRules(t, p, h)
      modifies this`root, All(t, p)
      ensures Zip(s, Top) && nil.color == BLACK
      ensures Inorder(s) == Whole(t, p) && Nodes(s) == All(t, p)
      ensures IsRedBlack(s) <==> was == RED || !EndsRed(t, p)
    {
      if was == BLACK {
        s := DeleteFixup(x, t, p, h);
      } else {
        s := Plug(t, p);
        ZipPlug(t, p);
        WholePlug(t, p);
        PlugRB(t, p, h);
      }
    }

    static lemma WholeTop(t: Tree)
      ensures Whole(t, Top) == Inorder(t) && All(t, Top) == Nodes(t)
    {
    }
  }
}
