/** Red-black trees (italos/lib/rbtree.c): insertion and deletion over mutable nodes with an explicit stack. */
module RedBlackTree {
  import opened Items
  import opened Wrappers
  import opened BinaryTree

  datatype Colour = Red | Black

  type Shape = Tree<Colour>
  type Route = Ctx<Colour>
  type RbNode = Node<Colour>

  // ---------- The colour rules ----------

  /** External nodes are black. */
  predicate IsBlack(t: Shape) {
    t.Leaf? || t.info.Black?
  }

  function Weight(c: Colour): nat {
    if c.Black? then 1 else 0
  }

  /** Black nodes on the path to the leftmost external node. */
  ghost function BlackHeight(t: Shape): nat {
    if t.Leaf? then 0 else BlackHeight(t.left) + Weight(t.info)
  }

  /** Equally many black nodes on all paths, and no red node with a red child. */
  ghost predicate Coloured(t: Shape) {
    t.Leaf? ||
    (Coloured(t.left) && Coloured(t.right) && BlackHeight(t.left) == BlackHeight(t.right) &&
     (t.info.Red? ==> IsBlack(t.left) && IsBlack(t.right)))
  }

  /** The path obeys the rules around a subtree with `h` black levels and a black root. */
  ghost predicate CtxColoured(c: Route, h: nat) {
    c.Top? ||
    (Coloured(c.sibling) && BlackHeight(c.sibling) == h &&
     (c.info.Red? ==> IsBlack(c.sibling) && c.up.Frame? && c.up.info.Black?) &&
     CtxColoured(c.up, h + Weight(c.info)))
  }

  /** A red subtree needs a black parent. */
  ghost predicate Fits(c: Route, t: Shape) {
    IsBlack(t) || (c.Frame? && c.info.Black?)
  }

  lemma {:induction false} PlugColoured(c: Route, t: Shape)
    ensures Coloured(Plug(c, t)) && IsBlack(Plug(c, t)) <==>
            CtxColoured(c, BlackHeight(t)) && Coloured(t) && Fits(c, t)
    decreases c
  {
    if c.Frame? {
      PlugColoured(c.up, Refill(c, t, c.info));
    }
  }

  // ---------- Size against height ----------

  lemma {:induction false} ColouredSize(t: Shape)
    requires Coloured(t)
    ensures |Inorder(t)| + 1 >= Pow2(BlackHeight(t))
    ensures Height(t) <= 2 * BlackHeight(t) + (if IsBlack(t) then 0 else 1)
  {
    if t.Branch? {
      ColouredSize(t.left);
      ColouredSize(t.right);
    }
  }

  /** The height is logarithmic in the number of items: 2^(h/2) <= n + 1. */
  lemma HeightLogarithmic(t: Shape)
    requires Coloured(t) && IsBlack(t)
    ensures Pow2((Height(t) + 1) / 2) <= |Inorder(t)| + 1
  {
    ColouredSize(t);
    Pow2Monotone((Height(t) + 1) / 2, BlackHeight(t));
  }

  /** As long as the count fits a C int, no path overflows the stack. */
  lemma StackSuffices(t: Shape)
    requires Coloured(t) && IsBlack(t) && |Inorder(t)| <= INT_MAX
    ensures Height(t) < STACK_SIZE - 1
  {
    HeightLogarithmic(t);
    Pow2At31();
    var h: nat := (Height(t) + 1) / 2;
    Pow2Monotone(32, h);
    assert Pow2(32) == 2 * Pow2(31);
  }

  // ---------- One level of the rules ----------

  lemma ColouredParts(t: Shape)
    requires t.Branch? && Coloured(t)
    ensures Coloured(t.left) && Coloured(t.right) && BlackHeight(t.left) == BlackHeight(t.right)
    ensures t.info.Red? ==> IsBlack(t.left) && IsBlack(t.right)
    ensures BlackHeight(t) == BlackHeight(t.left) + Weight(t.info)
    ensures t.left.Leaf? ==> BlackHeight(t.left) == 0
    ensures t.right.Leaf? ==> BlackHeight(t.right) == 0
  {
  }

  lemma ColouredBranch(t: Shape)
    requires t.Branch? && Coloured(t.left) && Coloured(t.right) && BlackHeight(t.left) == BlackHeight(t.right)
    requires t.info.Red? ==> IsBlack(t.left) && IsBlack(t.right)
    ensures Coloured(t) && BlackHeight(t) == BlackHeight(t.left) + Weight(t.info)
  {
  }

  // ---------- Restructuring ----------

  /** There is a child on side `dy`, with a child on its side `dz`. */
  ghost predicate Twisted(u: Shape, dy: Dir, dz: Dir) {
    Leaning(u, dy) && Child(u, dy).Branch? && Child(Child(u, dy), dz).Branch?
  }

  /** `u` with the middle one, in key order, of its root, child and grandchild lifted to the root. */
  ghost function Restructured(u: Shape, dy: Dir, dz: Dir): Shape
    requires Twisted(u, dy, dz)
  {
    if dy == dz then Single(u, dy, u.info, Child(u, dy).info)
    else Double(u, dy, u.info, Child(u, dy).info, Child(Child(u, dy), dz).info)
  }

  /** New colours for a root and its two children. */
  ghost function Tinted(v: Shape, top: Colour, low: Colour): Shape
    requires v.Branch? && v.left.Branch? && v.right.Branch?
  {
    v.(info := top, left := v.left.(info := low), right := v.right.(info := low))
  }

  lemma RestructuredKeeps(u: Shape, dy: Dir, dz: Dir)
    requires Twisted(u, dy, dz) && Distinct(u)
    ensures var v := Restructured(u, dy, dz);
            Inorder(v) == Inorder(u) && Refs(v) == Refs(u) && Distinct(v) &&
            v.Branch? && v.left.Branch? && v.right.Branch?
  {
    if dy == dz { SingleKeeps(u, dy, u.info, Child(u, dy).info); }
    else { DoubleKeeps(u, dy, u.info, Child(u, dy).info, Child(Child(u, dy), dz).info); }
  }

  /** The pointer assignments of rbtree_restructure, field by field. */
  method Twist(x: RbNode, y: RbNode, z: RbNode, ghost dy: Dir, ghost dz: Dir) returns (mid: RbNode)
    requires x != y && y != z && x != z
    requires if dy == 1 then x.right == y && x.left != y else x.left == y
    requires if dz == 1 then y.right == z && y.left != z else y.left == z
    modifies x`left, x`right, y`left, y`right, z`left, z`right
    ensures mid == if dy == dz then y else z
    ensures dy == 1 && dz == 1 ==>
              x.left == old(x.left) && x.right == old(y.left) && y.left == x && y.right == z &&
              z.left == old(z.left) && z.right == old(z.right)
    ensures dy == -1 && dz == -1 ==>
              x.right == old(x.right) && x.left == old(y.right) && y.right == x && y.left == z &&
              z.left == old(z.left) && z.right == old(z.right)
    ensures dy == 1 && dz == -1 ==>
              x.left == old(x.left) && x.right == old(z.left) && y.left == old(z.right) && y.right == old(y.right) &&
              z.left == x && z.right == y
    ensures dy == -1 && dz == 1 ==>
              x.right == old(x.right) && x.left == old(z.right) && y.right == old(z.left) && y.left == old(y.left) &&
              z.left == y && z.right == x
  {
    if y == x.left {
      if z == y.left {
        mid := y;
        y.left := z;
        x.left := y.right;
        y.right := x;
      } else {
        mid := z;
        y.right := z.left;
        z.left := y;
        x.left := z.right;
        z.right := x;
      }
    } else {
      mid := TwistRight(x, y, z, dz);
    }
  }

  /** The cases left for rbtree_restructure2: `y` is the right child of `x`. */
  method TwistRight(x: RbNode, y: RbNode, z: RbNode, ghost dz: Dir) returns (mid: RbNode)
    requires x != y && y != z && x != z && x.right == y
    requires if dz == 1 then y.right == z && y.left != z else y.left == z
    modifies x`left, x`right, y`left, y`right, z`left, z`right
    ensures mid == if dz == 1 then y else z
    ensures x.left == old(x.left)
    ensures dz == 1 ==>
              x.right == old(y.left) && y.left == x && y.right == z && z.left == old(z.left) && z.right == old(z.right)
    ensures dz == -1 ==>
              x.right == old(z.left) && y.left == old(z.right) && y.right == old(y.right) && z.left == x && z.right == y
  {
    if z == y.left {
      mid := z;
      x.right := z.left;
      z.left := x;
      y.left := z.right;
      z.right := y;
    } else {
      mid := y;
      x.right := y.left;
      y.left := x;
      y.right := z;
    }
  }

  lemma BeforeTwist(x: RbNode, y: RbNode, z: RbNode, u: Shape, dy: Dir, dz: Dir)
    requires Twisted(u, dy, dz) && Holds(u) && Distinct(u)
    requires x == u.node && y == Child(u, dy).node && z == Child(Child(u, dy), dz).node
    ensures u.Branch? && x != y && y != z && x != z && x in Refs(u) && y in Refs(u) && z in Refs(u)
    ensures if dy == 1 then x.right == y && x.left != y else x.left == y && x.right != y
    ensures if dz == 1 then y.right == z && y.left != z else y.left == z && y.right != z
    ensures x.info == u.info && y.info == Child(u, dy).info && z.info == Child(Child(u, dy), dz).info
  {
    BeforeSingle(x, y, dy, u);
    var t := Child(u, dy);
    assert Holds(t) && Distinct(t);
    var a, s, r := Child(u, Opp(dy)), Child(t, dz), Child(t, Opp(dz));
    assert Ptr(a) != y && Ptr(r) != z by {
      assert a.Branch? ==> a.node in Refs(a);
      assert r.Branch? ==> r.node in Refs(r);
      assert z in Refs(s);
    }
    assert z in Refs(t);
  }

  method Rotate(x: RbNode, y: RbNode, z: RbNode, right: bool, ghost u: Shape, ghost dy: Dir, ghost dz: Dir)
      returns (mid: RbNode)
    requires Twisted(u, dy, dz) && Holds(u) && Distinct(u) && (right ==> dy == 1)
    requires x == u.node && y == Child(u, dy).node && z == Child(Child(u, dy), dz).node
    modifies x`left, x`right, y`left, y`right, z`left, z`right
    ensures Holds(Restructured(u, dy, dz)) && mid == Restructured(u, dy, dz).node
  {
    hide Inorder, Refs, Distinct, Holds;
    BeforeTwist(x, y, z, u, dy, dz);
    ghost var t := Child(u, dy);
    ghost var a, s := Child(u, Opp(dy)), Child(t, dz);
    assert allocated(Refs(a)) && allocated(Refs(t.left)) && allocated(Refs(t.right)) &&
           allocated(Refs(s.left)) && allocated(Refs(s.right));
    if dy == dz {
      BeforeSingle(x, y, dy, u);
    } else {
      BeforeDouble(x, y, z, dy, u);
    }
    if right {
      mid := TwistRight(x, y, z, dz);
    } else {
      mid := Twist(x, y, z, dy, dz);
    }
    if dy == dz {
      SingleHolds(x, y, dy, u);
    } else {
      DoubleHolds(x, y, z, dy, u);
    }
  }

  // ---------- What a violation does to the levels above ----------

  /** Two reds in a row below the end of the path: the parent has a black parent itself. */
  lemma DoubleRed(c: Route, t: Shape)
    requires c.Frame? && c.info.Red? && CtxColoured(c, BlackHeight(t))
    ensures c.up.Frame? && c.up.info.Black? && IsBlack(c.sibling) && Coloured(c.sibling) && Coloured(c.up.sibling)
    ensures BlackHeight(c.sibling) == BlackHeight(c.up.sibling) == BlackHeight(t)
    ensures CtxColoured(c.up.up, BlackHeight(t) + 1)
  {
  }

  /** The subtree of the grandparent. */
  ghost function Grand(c: Route, t: Shape): Shape
    requires c.Frame? && c.up.Frame?
  {
    Refill(c.up, Refill(c, t, c.info), c.up.info)
  }

  /** A black uncle: restructuring puts an end to two reds in a row. */
  lemma RestructuredInsert(c: Route, t: Shape)
    requires c.Frame? && c.up.Frame? && c.info.Red? && CtxColoured(c, BlackHeight(t))
    requires t.Branch? && t.info.Red? && Coloured(t) && IsBlack(c.up.sibling)
    ensures var u := Grand(c, t);
            Twisted(u, c.up.dir, c.dir) &&
            var w := Restructured(u, c.up.dir, c.dir);
            w.Branch? && w.left.Branch? && w.right.Branch? &&
            var v := Tinted(w, Black, Red);
            Coloured(v) && IsBlack(v) && CtxColoured(c.up.up, BlackHeight(v))
  {
    DoubleRed(c, t);
    ColouredParts(t);
    hide Coloured, BlackHeight, CtxColoured;
    var v := Tinted(Restructured(Grand(c, t), c.up.dir, c.dir), Black, Red);
    ColouredBranch(v.left);
    ColouredBranch(v.right);
    ColouredBranch(v);
  }

  /** The grandparent with black children, itself coloured `top`. */
  ghost function Recoloured(c: Route, t: Shape, top: Colour): Shape
    requires c.Frame? && c.up.Frame? && c.up.sibling.Branch?
  {
    Fill(c.up.dir, c.up.node, c.up.item, top, c.up.sibling.(info := Black), Refill(c, t, Black))
  }

  /** A red uncle: recolouring moves the violation up, or ends it at the root. */
  lemma RecolouredInsert(c: Route, t: Shape)
    requires c.Frame? && c.up.Frame? && c.info.Red? && CtxColoured(c, BlackHeight(t))
    requires t.Branch? && t.info.Red? && Coloured(t) && !IsBlack(c.up.sibling)
    ensures var v := Recoloured(c, t, Red); Coloured(v) && CtxColoured(c.up.up, BlackHeight(v))
    ensures Coloured(Recoloured(c, t, Black))
  {
    DoubleRed(c, t);
    var q := c.up.sibling;
    ColouredParts(q);
    hide Coloured, BlackHeight, CtxColoured;
    ColouredBranch(q.(info := Black));
    ColouredBranch(Refill(c, t, Black));
    ColouredBranch(Recoloured(c, t, Red));
    ColouredBranch(Recoloured(c, t, Black));
  }

  /** A subtree one black level short: its sibling is there, and so are the levels above. */
  lemma Short(c: Route, t: Shape)
    requires c.Frame? && CtxColoured(c, BlackHeight(t) + 1)
    ensures c.sibling.Branch? && Coloured(c.sibling) && BlackHeight(c.sibling) == BlackHeight(t) + 1
    ensures c.info.Red? ==> IsBlack(c.sibling) && c.up.Frame? && c.up.info.Black?
    ensures CtxColoured(c.up, BlackHeight(t) + 1 + Weight(c.info))
  {
  }

  /** Case 1: the sibling is black and has a red child. */
  lemma RestructuredDelete(c: Route, t: Shape, dz: Dir)
    requires c.Frame? && CtxColoured(c, BlackHeight(t) + 1) && Coloured(t) && IsBlack(t)
    requires IsBlack(c.sibling) && c.sibling.Branch? && !IsBlack(Child(c.sibling, dz))
    ensures var u := Refill(c, t, c.info);
            Twisted(u, Opp(c.dir), dz) &&
            var w := Restructured(u, Opp(c.dir), dz);
            w.Branch? && w.left.Branch? && w.right.Branch? &&
            var v := Tinted(w, c.info, Black);
            Coloured(v) && CtxColoured(c.up, BlackHeight(v)) && Fits(c.up, v)
  {
    hide Coloured, BlackHeight, CtxColoured;
    Short(c, t);
    ColouredParts(c.sibling);
    ColouredParts(Child(c.sibling, dz));
    var v := Tinted(Restructured(Refill(c, t, c.info), Opp(c.dir), dz), c.info, Black);
    ColouredBranch(v.left);
    ColouredBranch(v.right);
    ColouredBranch(v);
  }

  /** Case 2: the sibling is black and so are its children; it turns red. */
  ghost function ReddenedSibling(c: Route, t: Shape): Shape
    requires c.Frame? && c.sibling.Branch?
  {
    Fill(c.dir, c.node, c.item, Black, c.sibling.(info := Red), t)
  }

  lemma Reddened(c: Route, t: Shape)
    requires c.Frame? && CtxColoured(c, BlackHeight(t) + 1) && Coloured(t) && IsBlack(t)
    requires c.sibling.Branch? && IsBlack(c.sibling) && IsBlack(c.sibling.left) && IsBlack(c.sibling.right)
    ensures var v := ReddenedSibling(c, t);
            Coloured(v) && CtxColoured(c.up, BlackHeight(v) + Weight(c.info))
  {
    Short(c, t);
    ColouredParts(c.sibling);
    hide Coloured, BlackHeight, CtxColoured;
    ColouredBranch(c.sibling.(info := Red));
    ColouredBranch(ReddenedSibling(c, t));
  }

  /** Case 3: the sibling is red; after restructuring, the path leads through it and is as short as before. */
  ghost function Lowered(c: Route): Route
    requires c.Frame? && c.sibling.Branch?
  {
    var y := c.sibling;
    var outer, inner := if c.dir == 1 then y.left else y.right, if c.dir == 1 then y.right else y.left;
    Frame(Frame(c.up, c.dir, y.node, y.item, Black, outer), c.dir, c.node, c.item, Red, inner)
  }

  lemma RedSibling(c: Route, t: Shape)
    requires c.Frame? && CtxColoured(c, BlackHeight(t) + 1) && Coloured(t) && IsBlack(t)
    requires c.sibling.Branch? && !IsBlack(c.sibling)
    ensures c.info.Black? && Twisted(Refill(c, t, c.info), Opp(c.dir), Opp(c.dir))
    ensures CtxColoured(Lowered(c), BlackHeight(t) + 1)
    ensures Lowered(c).sibling.Branch? && IsBlack(Lowered(c).sibling)
    ensures var v := Restructured(Refill(c, t, c.info), Opp(c.dir), Opp(c.dir));
            Refill(Lowered(c).up, Refill(Lowered(c), t, Red), Black) ==
            v.(info := Black, left := if c.dir == 1 then v.left else v.left.(info := Red),
                              right := if c.dir == 1 then v.right.(info := Red) else v.right)
  {
    Short(c, t);
    ColouredParts(c.sibling);
    ColouredParts(Lowered(c).sibling);
    ColouredParts(Lowered(c).up.sibling);
  }

  // ---------- Removal ----------

  /** A node with at most one child: taking it out costs as many black levels as it was worth. */
  lemma TakenOut(c: Route, s: Shape)
    requires s.Branch? && (s.left.Leaf? || s.right.Leaf?)
    requires Coloured(s) && CtxColoured(c, BlackHeight(s))
    ensures var t := OnlyChild(s);
            Coloured(t) && CtxColoured(c, BlackHeight(t) + Weight(s.info)) && (s.info.Red? ==> IsBlack(t))
  {
  }

  /** Replacing the node and item of the topmost frame of a path leaves its colours alone. */
  lemma {:induction false} SwapTopColoured(c: Route, c': Route, d: Route, h: nat)
    requires c.Frame? && c'.Frame? && c' == c.(node := c'.node, item := c'.item)
    ensures CtxColoured(Join(c, d), h) <==> CtxColoured(Join(c', d), h)
    decreases d
  {
    if d.Frame? {
      SwapTopColoured(c, c', d.up, h + Weight(d.info));
    }
  }

  lemma PromotedColoured(c: Route, t: Shape, d: Route, s: Shape)
    requires MinBelow(t, d, s) && Coloured(t) && CtxColoured(c, BlackHeight(t)) && Fits(c, t)
    ensures Coloured(s) && CtxColoured(Promoted(c, t, d, s), BlackHeight(s))
  {
    var f := Down(c, t, 1);
    PlugJoin(f, d, s);
    PlugColoured(c, t);
    PlugColoured(Join(f, d), s);
    SwapTopColoured(f, Frame(c, 1, s.node, s.item, t.info, t.left), d, BlackHeight(s));
  }

  // ---------- The dictionary ----------

  class RbTree {
    var root: Node?<Colour>
    var n: int
    const stack: array<Node?<Colour>>
    ghost var tree: Shape

    constructor ()
      ensures Valid() && Contents() == map[] && n == 0
      ensures fresh(stack) && fresh(Refs(tree))
    {
      root, n := null, 0;
      stack := new Node?<Colour>[STACK_SIZE](_ => null);
      tree := Leaf;
    }

    ghost predicate Valid()
      reads this, Refs(tree)
    {
      Shaped() && n == |Inorder(tree)| <= INT_MAX && Sorted(Inorder(tree)) && stack.Length == STACK_SIZE
    }

    /** The nodes form `tree`, which obeys the colour rules and has a black root. */
    ghost predicate Shaped()
      reads this`root, this`tree, Refs(tree)
    {
      root == Ptr(tree) && Holds(tree) && Distinct(tree) && Coloured(tree) && IsBlack(tree)
    }

    ghost function Contents(): Contents
      requires Valid()
      reads this, Refs(tree)
    {
      MapOf(Inorder(tree))
    }

    /** The rebalanced pieces make up the new tree. */
    ghost method Settle(c: Route, t: Shape)
      requires Attached(c, t, root) && Coloured(t) && CtxColoured(c, BlackHeight(t)) && Fits(c, t)
      modifies this`tree
      ensures Shaped()
      ensures Inorder(tree) == AllItems(c, t) && Refs(tree) == Nodes(c, t)
    {
      Assemble(c, t, root);
      PlugColoured(c, t);
      tree := Plug(c, t);
    }

    /** What the tree is, told in terms of a path and the subtree at its end. */
    lemma Pieces(c: Route, t: Shape)
      requires Valid() && Plug(c, t) == tree
      ensures AllItems(c, t) == Inorder(tree) && Nodes(c, t) == Refs(tree)
      ensures Coloured(t) && CtxColoured(c, BlackHeight(t)) && Fits(c, t)
      ensures Depth(c) + Height(t) < STACK_SIZE - 1
      ensures Attached(c, t, root)
      ensures t.Branch? ==>
                t.node.item == t.item && t.node.info == t.info &&
                t.node.left == Ptr(t.left) && t.node.right == Ptr(t.right)
    {
      StackSuffices(tree);
      PathHeight(c, t);
      PlugColoured(c, t);
      TakeApart(c, t);
    }

    /** The last node of the path joins the subtree below it. */
    lemma Ascend(c: Route, t: Shape)
      requires Attached(c, t, root) && c.Frame?
      ensures Attached(c.up, Refill(c, t, c.info), root)
      ensures AllItems(c.up, Refill(c, t, c.info)) == AllItems(c, t) && Nodes(c.up, Refill(c, t, c.info)) == Nodes(c, t)
      ensures c.node in Nodes(c, t) && c.node.info == c.info
      ensures Ptr(c.sibling) == (if c.dir == 1 then c.node.left else c.node.right)
      ensures Ptr(t) == (if c.dir == 1 then c.node.right else c.node.left)
      ensures t.Branch? ==> t.node in Nodes(c, t) && t.node.info == t.info
      ensures c.sibling.Branch? ==>
                c.sibling.node in Nodes(c, t) && c.sibling.node.info == c.sibling.info && Ptr(t) != Ptr(c.sibling) &&
                c.sibling.node.left == Ptr(c.sibling.left) && c.sibling.node.right == Ptr(c.sibling.right)
    {
      RefillKeeps(c, t, c.info);
    }

    // ---------- Restructuring ----------

    /** rbtree_restructure, and rbtree_restructure2 when `right` says that `y` is the right child of `x`. */
    method Restructure(tos: int, x: RbNode, y: RbNode, z: RbNode, right: bool,
                       ghost c: Route, ghost u: Shape, ghost dy: Dir, ghost dz: Dir)
        returns (mid: RbNode)
      requires OnStack(stack, c, tos) && Attached(c, u, root) && Twisted(u, dy, dz) && (right ==> dy == 1)
      requires x == u.node && y == Child(u, dy).node && z == Child(Child(u, dy), dz).node
      modifies this`root, Nodes(c, u)
      ensures var v := Restructured(u, dy, dz);
              Attached(c, v, root) && mid == v.node && AllItems(c, v) == AllItems(c, u) && Nodes(c, v) == Nodes(c, u) &&
              v.left.Branch? && v.right.Branch?
    {
      hide Inorder, Before, After, Refs, CtxRefs, Holds, CtxHolds, Distinct, CtxDistinct, Restructured, Twisted;
      ghost var v := Restructured(u, dy, dz);
      RestructuredKeeps(u, dy, dz);
      Apart(c, u);
      BeforeTwist(x, y, z, u, dy, dz);
      AboveOnStack(stack, c, tos);
      assert allocated(CtxRefs(c)) && allocated(Refs(u)) && allocated(Refs(v));
      assert CtxHolds(c, x, root) && allocated(root);
      mid := Rotate(x, y, z, right, u, dy, dz);
      assert CtxHolds(c, x, root);
      root := ReplaceChild(root, if tos != 0 then stack[tos - 1] else null, x, mid, c);
      assert Holds(v);
    }

    /** Colours for the node lifted by a restructuring and its two children. */
    method Tint(mid: RbNode, top: Colour, low: Colour, ghost c: Route, ghost v: Shape)
      requires Attached(c, v, root) && v.Branch? && v.left.Branch? && v.right.Branch? && mid == v.node
      modifies Nodes(c, v)
      ensures Attached(c, Tinted(v, top, low), root)
      ensures AllItems(c, Tinted(v, top, low)) == AllItems(c, v) && Nodes(c, Tinted(v, top, low)) == Nodes(c, v)
    {
      hide Inorder, Before, After, Refs, CtxRefs, CtxHolds, CtxDistinct, Distinct;
      BeforeTint(mid, c, v);
      ghost var w := Tinted(v, top, low);
      mid.info := top;
      mid.left.info := low;
      mid.right.info := low;
      assert Holds(w.left) && Holds(w.right);
      TintedKeeps(c, v, top, low);
    }

    lemma BeforeTint(mid: RbNode, c: Route, v: Shape)
      requires Attached(c, v, root) && v.Branch? && v.left.Branch? && v.right.Branch? && mid == v.node
      ensures mid.left == v.left.node && mid.right == v.right.node && mid != v.left.node && mid != v.right.node
      ensures v.left.node != v.right.node
      ensures Holds(v.left) && Holds(v.right)
      ensures var w := {mid, v.left.node, v.right.node};
              w <= Refs(v) && w !! Refs(v.left.left) && w !! Refs(v.left.right) &&
              w !! Refs(v.right.left) && w !! Refs(v.right.right)
    {
      assert Distinct(v.left) && Distinct(v.right);
    }

    lemma TintedKeeps(c: Route, v: Shape, top: Colour, low: Colour)
      requires v.Branch? && v.left.Branch? && v.right.Branch?
      ensures var w := Tinted(v, top, low);
              AllItems(c, w) == AllItems(c, v) && Refs(w) == Refs(v) && (Distinct(v) ==> Distinct(w))
    {
      var w := Tinted(v, top, low);
      assert Refs(w.left) == Refs(v.left) && Refs(w.right) == Refs(v.right);
      assert Distinct(w.left) == Distinct(v.left) && Distinct(w.right) == Distinct(v.right);
      assert Inorder(w.left) == Inorder(v.left) && Inorder(w.right) == Inorder(v.right);
    }

    // ---------- Insertion ----------

    /** Walks down to the key of `k`, or to where it is missing, pushing every node on the way;
        `side` is the side of the last step. */
    method Search(k: Item) returns (p: Node?<Colour>, tos: int, side: Dir, ghost c: Route, ghost t: Shape)
      requires Valid()
      modifies stack
      ensures OnStack(stack, c, tos) && Plug(c, t) == tree && p == Ptr(t) && (c.Frame? ==> side == c.dir)
      ensures Leads(c, k.key) && (t.Branch? ==> t.item.key == k.key)
    {
      hide MapOf, Distinct, Coloured, BlackHeight;
      StackSuffices(tree);
      assert allocated(Refs(tree));
      c, t := Top, tree;
      p, tos, side := root, 0, 1;
      while p != null && Compar(k, p.item) != 0
        invariant OnStack(stack, c, tos) && Plug(c, t) == tree && p == Ptr(t) && (c.Frame? ==> side == c.dir)
        invariant Holds(tree) && Holds(t)
        invariant Leads(c, k.key) && Sorted(Inorder(t))
        decreases t
      {
        PathHeight(c, t);
        PathLength(c);
        side := if Compar(k, p.item) < 0 then -1 else 1;
        stack[tos] := p;
        p, tos := if side == -1 then p.left else p.right, tos + 1;
        StepLeads(c, t, k.key, side);
        c, t := Down(c, t, side), Child(t, side);
        PlugHolds(c, t);
      }
    }

    method Insert(item: Item) returns (existing: Option<Item>)
      requires Valid() && (item.key in Contents() || n < INT_MAX)
      modifies this, stack, Refs(tree)
      ensures Valid() && fresh(Refs(tree) - old(Refs(tree)))
      ensures existing == Lookup(old(Contents()), item.key)
      ensures Contents() == AfterInsert(old(Contents()), item)
    {
      hide MapOf, Height, Coloured, CtxColoured, BlackHeight, Attached, Shaped, Inorder, Refs, CtxRefs, Before, After,
           AllItems, Nodes, Leads;
      assert allocated(Refs(tree));
      var p, tos, side; ghost var c, t;
      p, tos, side, c, t := Search(item);
      Pieces(c, t);
      if p != null {
        Found(c, t);
        return Some(p.item);
      }
      Missing(c, item);
      var x := AttachNew(item, tos, side, c);
      ghost var col := if tos == 0 then Black else Red;
      NewLeaf(c, x, item, col);
      RebalanceInsert(x, tos, c, Branch(Leaf, x, item, col, Leaf));
      existing := None;
    }

    lemma NewLeaf(c: Route, x: RbNode, item: Item, col: Colour)
      ensures var leaf := Branch(Leaf, x, item, col, Leaf);
              AllItems(c, leaf) == Before(c) + [item] + After(c) && Nodes(c, leaf) == Nodes(c, Leaf) + {x} &&
              Coloured(leaf) && BlackHeight(leaf) == Weight(col)
      ensures BlackHeight(Leaf) == 0
      ensures c.Top? ==> forall h: nat :: CtxColoured(c, h)
    {
      var nil: Shape := Leaf;
      var leaf: Shape := Branch(nil, x, item, col, nil);
      assert Inorder(nil) == [] && Refs(nil) == {} && Coloured(nil) && BlackHeight(nil) == 0;
      assert Inorder(leaf) == [] + [item] + [];
      assert Refs(leaf) == {x};
    }

    method AttachNew(item: Item, tos: int, side: Dir, ghost c: Route) returns (x: RbNode)
      requires OnStack(stack, c, tos) && Attached(c, Leaf, root) && (c.Frame? ==> side == c.dir)
      modifies this`root, this`n, Nodes<Colour>(c, Leaf)
      ensures fresh(x) && n == old(n) + 1
      ensures (tos == 0 <==> c.Top?) && Attached(c, Branch(Leaf, x, item, if tos == 0 then Black else Red, Leaf), root)
    {
      hide Inorder, Before, After;
      AboveOnStack(stack, c, tos);
      assert allocated(CtxRefs(c));
      assert CtxHolds(c, null, root);
      x := new Node(item, if tos == 0 then Black else Red);
      if tos == 0 {
        root := x;
      } else if side == 1 {
        stack[tos - 1].right := x;
      } else {
        stack[tos - 1].left := x;
      }
      n := n + 1;
    }

    /** One turn of the loop: `x` and its parent `p` are red; `m` is the parent of `p`. */
    method StepInsert(m: RbNode, p: RbNode, x: RbNode, tos: int, ghost c: Route, ghost t: Shape)
        returns (ghost v: Shape, done: bool)
      requires c.Frame? && c.up.Frame? && m == c.up.node && p == c.node && t.Branch? && x == t.node
      requires c.info.Red? && t.info.Red? && Attached(c, t, root) && OnStack(stack, c.up.up, tos)
      requires Coloured(t) && CtxColoured(c, BlackHeight(t))
      modifies this`root, Nodes(c, t)
      ensures Attached(c.up.up, v, root) && Coloured(v) && CtxColoured(c.up.up, BlackHeight(v))
      ensures if done then Fits(c.up.up, v) else c.up.up.Frame? && v.Branch? && v.info.Red? && v.node == m
      ensures AllItems(c.up.up, v) == AllItems(c, t) && Nodes(c.up.up, v) == Nodes(c, t)
    {
      hide Coloured, CtxColoured, BlackHeight, Attached, AllItems, Nodes, Holds, CtxHolds, Distinct, CtxDistinct;
      DoubleRed(c, t);
      ghost var u := Grand(c, t);
      Ascend(c, t);
      Ascend(c.up, Refill(c, t, c.info));
      AboveOnStack(stack, c.up.up, tos);
      var q := if p == m.left then m.right else m.left;
      if q == null || q.info.Black? {
        RestructuredInsert(c, t);
        var mid := Restructure(tos, m, p, x, false, c.up.up, u, c.up.dir, c.dir);
        ghost var w := Restructured(u, c.up.dir, c.dir);
        Tint(mid, Black, Red, c.up.up, w);
        v, done := Tinted(w, Black, Red), true;
      } else {
        // At the root, whose colour is black already, the violation just ends.
        RecolouredInsert(c, t);
        var top := if tos == 0 then Black else Red;
        Tint(m, top, Black, c.up.up, u);
        v, done := Tinted(u, top, Black), tos == 0;
        if tos == 0 { RootColoured(c.up.up, BlackHeight(v)); }
      }
    }

    lemma RootColoured(c: Route, h: nat)
      requires c.Top?
      ensures CtxColoured(c, h)
    {
    }

    /** Puts an end to two reds in a row: `x`, the root of `t0`, below the end of the path. */
    method RebalanceInsert(x0: RbNode, tos0: int, ghost c0: Route, ghost t0: Shape)
      requires OnStack(stack, c0, tos0) && Attached(c0, t0, root) && t0.Branch? && x0 == t0.node
      requires Coloured(t0) && CtxColoured(c0, BlackHeight(t0)) && (c0.Frame? ==> t0.info.Red?) &&
               (c0.Top? ==> IsBlack(t0))
      modifies this`root, this`tree, Nodes(c0, t0)
      ensures Shaped()
      ensures Inorder(tree) == AllItems(c0, t0) && Refs(tree) == Nodes(c0, t0)
    {
      hide Coloured, CtxColoured, BlackHeight, Attached, AllItems, Nodes, Holds, Distinct, CtxHolds, CtxDistinct, Refs,
           CtxRefs;
      ghost var c, t := c0, t0;
      AboveOnStack(stack, c, tos0);
      if tos0 > 0 {
        var tos, x := tos0 - 1, x0;
        var p: RbNode := stack[tos];
        PathLength(c);
        Ascend(c, t);
        var done := false;
        while !done && p.info.Red?
          invariant !done ==>
                      c.Frame? && p == c.node && OnStack(stack, c.up, tos) && t.Branch? && x == t.node && t.info.Red?
          invariant Attached(c, t, root) && Coloured(t) && CtxColoured(c, BlackHeight(t))
          invariant if done then Fits(c, t) else p.info == c.info
          invariant AllItems(c, t) == AllItems(c0, t0) && Nodes(c, t) == Nodes(c0, t0)
          decreases !done, tos
        {
          DoubleRed(c, t);
          PathLength(c.up);
          tos := tos - 1;
          var m: RbNode := stack[tos];
          ghost var v;
          v, done := StepInsert(m, p, x, tos, c, t);
          c, t := c.up.up, v;
          if !done {
            PathLength(c);
            x, tos := m, tos - 1;
            p := stack[tos];
            Ascend(c, t);
          }
        }
      }
      Settle(c, t);
    }

    // ---------- Deletion ----------

    /** `y`, the sibling of the short subtree `t`, is black: cases 1 and 2 of the source. */
    method FixBlack(x: RbNode, y: RbNode, tos: int, right: bool, ghost c: Route, ghost t: Shape)
        returns (ghost v: Shape, done: bool)
      requires c.Frame? && x == c.node && c.sibling.Branch? && y == c.sibling.node && c.sibling.info.Black?
      requires OnStack(stack, c.up, tos) && Attached(c, t, root) && (right ==> c.dir == -1)
      requires Coloured(t) && IsBlack(t) && CtxColoured(c, BlackHeight(t) + 1)
      modifies this`root, Nodes(c, t)
      ensures Attached(c.up, v, root) && Coloured(v)
      ensures if done then CtxColoured(c.up, BlackHeight(v)) && Fits(c.up, v)
              else IsBlack(v) && CtxColoured(c.up, BlackHeight(v) + 1)
      ensures AllItems(c.up, v) == AllItems(c, t) && Nodes(c.up, v) == Nodes(c, t)
      ensures c.info.Red? ==> done
      ensures Ptr(v) == x || done
    {
      hide Coloured, CtxColoured, BlackHeight, Attached, AllItems, Nodes, Holds, CtxHolds, Distinct, CtxDistinct;
      Ascend(c, t);
      Nephews(c, t);
      ghost var dz: Dir := -1;
      var z := y.left;
      if z == null || z.info.Black? {
        z := y.right;
        dz := 1;
      }
      if z != null && z.info.Red? {
        RestructuredDelete(c, t, dz);
        ghost var u := Refill(c, t, c.info);
        var colour := x.info;
        var b := Restructure(tos, x, y, z, right, c.up, u, Opp(c.dir), dz);
        ghost var w := Restructured(u, Opp(c.dir), dz);
        Tint(b, colour, Black, c.up, w);
        v, done := Tinted(w, c.info, Black), true;
      } else {
        Reddened(c, t);
        v := ReddenedSibling(c, t);
        done := x.info.Red?;
        Redden(x, y, c, t);
      }
    }

    /** The nodes of the children of the sibling. */
    lemma Nephews(c: Route, t: Shape)
      requires c.Frame? && Attached(c, t, root) && c.sibling.Branch?
      ensures var y := c.sibling;
              (y.left.Branch? ==> y.node.left == y.left.node && y.left.node.info == y.left.info) &&
              (y.right.Branch? ==> y.node.right == y.right.node && y.right.node.info == y.right.info)
    {
      assert Holds(c.sibling.left) && Holds(c.sibling.right);
    }

    /** The sibling turns red, and the parent black. */
    method Redden(x: RbNode, y: RbNode, ghost c: Route, ghost t: Shape)
      requires c.Frame? && x == c.node && c.sibling.Branch? && y == c.sibling.node && Attached(c, t, root)
      modifies Nodes(c, t)
      ensures var v := ReddenedSibling(c, t);
              Attached(c.up, v, root) && AllItems(c.up, v) == AllItems(c, t) && Nodes(c.up, v) == Nodes(c, t)
    {
      ghost var c' := c.(sibling := c.sibling.(info := Red));
      SiblingRed(c, t);
      RefillKeeps(c', t, Black);
      PaintSibling(y, c, t);
      Ascend(c', t);
      if x.info.Red? {
        SetInfo(x, Black, c', t, root);
      }
    }

    lemma SiblingRed(c: Route, t: Shape)
      requires c.Frame? && c.sibling.Branch?
      ensures var c' := c.(sibling := c.sibling.(info := Red));
              AllItems(c', t) == AllItems(c, t) && Nodes(c', t) == Nodes(c, t) &&
              c.node in Nodes(c, t) && c.sibling.node in Nodes(c, t)
    {
      var y := c.sibling;
      assert Inorder(y.(info := Red)) == Inorder(y) && Refs(y.(info := Red)) == Refs(y);
    }

    method PaintSibling(y: RbNode, ghost c: Route, ghost t: Shape)
      requires c.Frame? && c.sibling.Branch? && y == c.sibling.node && Attached(c, t, root)
      modifies y`info
      ensures Attached(c.(sibling := c.sibling.(info := Red)), t, root)
    {
      hide Inorder, Before, After;
      ghost var s := c.sibling.(info := Red);
      assert Refs(s) == Refs(c.sibling) && Distinct(s) == Distinct(c.sibling);
      y.info := Red;
      assert Holds(s);
    }

    /** `y`, the sibling of the short subtree `t`, is red: case 3 of the source, which ends in case 1
        or 2 one level further down; `y` goes back on the stack as the new parent of `x`. */
    method FixRed(x: RbNode, y: RbNode, tos: int, right: bool, ghost c: Route, ghost t: Shape)
        returns (ghost c': Route, ghost v: Shape)
      requires c.Frame? && x == c.node && c.sibling.Branch? && y == c.sibling.node && c.sibling.info.Red?
      requires OnStack(stack, c.up, tos) && tos < STACK_SIZE && Attached(c, t, root) && (right ==> c.dir == -1)
      requires Coloured(t) && IsBlack(t) && CtxColoured(c, BlackHeight(t) + 1)
      modifies this`root, stack, Nodes(c, t)
      ensures Attached(c', v, root) && Coloured(v) && CtxColoured(c', BlackHeight(v)) && Fits(c', v)
      ensures AllItems(c', v) == AllItems(c, t) && Nodes(c', v) == Nodes(c, t)
    {
      hide Coloured, CtxColoured, BlackHeight, Attached, AllItems, Nodes, Holds, CtxHolds, Distinct, CtxDistinct;
      RedSibling(c, t);
      Ascend(c, t);
      Nephews(c, t);
      ghost var u, low := Refill(c, t, c.info), Lowered(c);
      var new_y: Node?<Colour>, z: Node?<Colour>;
      if x.left == y {
        new_y, z := y.right, y.left;
      } else {
        new_y, z := y.left, y.right;
      }
      var b := Restructure(tos, x, y, z, right, c.up, u, Opp(c.dir), Opp(c.dir));
      ghost var w := Restructured(u, Opp(c.dir), Opp(c.dir));
      PaintLowered(x, y, c.dir, c.up, w);
      Descend(c, t, w);
      PushLowered(y, tos, low, t);
      v := FixBlackAt(x, new_y, tos + 1, right, low, t);
      c' := low.up;
    }

    method PushLowered(y: RbNode, tos: int, ghost c: Route, ghost t: Shape)
      requires c.Frame? && c.up.Frame? && y == c.up.node
      requires OnStack(stack, c.up.up, tos) && tos < STACK_SIZE && Attached(c, t, root)
      modifies stack
      ensures OnStack(stack, c.up, tos + 1) && Attached(c, t, root)
    {
      hide Inorder, Before, After, Refs, CtxRefs, Holds, Distinct, CtxDistinct;
      stack[tos] := y;
    }

    method FixBlackAt(x: RbNode, y: RbNode, tos: int, right: bool, ghost c: Route, ghost t: Shape)
        returns (ghost v: Shape)
      requires c.Frame? && x == c.node && c.sibling.Branch? && y == c.sibling.node && c.sibling.info.Black? &&
               c.info.Red?
      requires OnStack(stack, c.up, tos) && Attached(c, t, root) && (right ==> c.dir == -1)
      requires Coloured(t) && IsBlack(t) && CtxColoured(c, BlackHeight(t) + 1)
      modifies this`root, Nodes(c, t)
      ensures Attached(c.up, v, root) && Coloured(v) && CtxColoured(c.up, BlackHeight(v)) && Fits(c.up, v)
      ensures AllItems(c.up, v) == AllItems(c, t) && Nodes(c.up, v) == Nodes(c, t)
    {
      var done;
      v, done := FixBlack(x, y, tos, right, c, t);
    }

    /** The lifted node `y` turns black, and `x`, now its child on side `dir`, red. */
    method PaintLowered(x: RbNode, y: RbNode, ghost dir: Dir, ghost c: Route, ghost w: Shape)
      requires Attached(c, w, root) && w.Branch? && y == w.node && Child(w, dir).Branch? && x == Child(w, dir).node
      modifies Nodes(c, w)
      ensures Attached(c, LoweredPaint(w, dir), root)
      ensures AllItems(c, LoweredPaint(w, dir)) == AllItems(c, w) && Nodes(c, LoweredPaint(w, dir)) == Nodes(c, w)
    {
      hide Before, After, CtxRefs, CtxHolds, CtxDistinct;
      ghost var k := Child(w, dir);
      ghost var k' := k.(info := Red);
      assert Holds(k) && Distinct(k);
      assert Refs(k') == Refs(k) && Inorder(k') == Inorder(k) && Distinct(k') == Distinct(k);
      y.info := Black;
      x.info := Red;
      assert Holds(k');
    }

    static ghost function LoweredPaint(w: Shape, dir: Dir): Shape
      requires w.Branch? && Child(w, dir).Branch?
    {
      w.(info := Black, left := if dir == 1 then w.left else w.left.(info := Red),
                        right := if dir == 1 then w.right.(info := Red) else w.right)
    }

    /** Case 3 leaves the short subtree where it was, at the end of a path one node longer. */
    lemma Descend(c: Route, t: Shape, w: Shape)
      requires c.Frame? && c.sibling.Branch?
      requires w.Branch? && Child(w, c.dir).Branch?
      requires Refill(Lowered(c).up, Refill(Lowered(c), t, Red), Black) == LoweredPaint(w, c.dir)
      requires Attached(c.up, LoweredPaint(w, c.dir), root)
      ensures Attached(Lowered(c), t, root)
      ensures AllItems(Lowered(c), t) == AllItems(c.up, LoweredPaint(w, c.dir))
      ensures Nodes(Lowered(c), t) == Nodes(c.up, LoweredPaint(w, c.dir))
      ensures Path(Lowered(c).up) == Path(c.up) + [c.sibling.node]
    {
      var v := LoweredPaint(w, c.dir);
      Assemble(c.up, v, root);
      assert Plug(Lowered(c), t) == Plug(Lowered(c).up, Refill(Lowered(c), t, Red)) == Plug(c.up, v);
      TakeApart(Lowered(c), t);
    }

    /** Ends a shortage of one black level: `x` is the parent and `y` the sibling of the short subtree. */
    method FixShort(x0: RbNode, y0: RbNode, tos0: int, right: bool, ghost c0: Route, ghost t0: Shape)
        returns (ghost c: Route, ghost t: Shape)
      requires c0.Frame? && x0 == c0.node && c0.sibling.Branch? && y0 == c0.sibling.node
      requires OnStack(stack, c0.up, tos0) && tos0 < STACK_SIZE && Attached(c0, t0, root) &&
               (right ==> Before(c0) == [])
      requires Coloured(t0) && IsBlack(t0) && CtxColoured(c0, BlackHeight(t0) + 1)
      modifies this`root, stack, Nodes(c0, t0)
      ensures Attached(c, t, root) && Coloured(t) && CtxColoured(c, BlackHeight(t)) && Fits(c, t)
      ensures AllItems(c, t) == AllItems(c0, t0) && Nodes(c, t) == Nodes(c0, t0)
    {
      hide Coloured, CtxColoured, BlackHeight, Attached, AllItems, Nodes, Holds, CtxHolds, Distinct, CtxDistinct,
           Before;
      c, t := c0, t0;
      var x, y, tos := x0, y0, tos0;
      MinSteps'(c, right);
      Ascend(c, t);
      while y.info.Black?
        invariant c.Frame? && x == c.node && c.sibling.Branch? && y == c.sibling.node && y.info == c.sibling.info
        invariant OnStack(stack, c.up, tos) && tos < STACK_SIZE && Attached(c, t, root)
        invariant right ==> Before(c) == [] && c.dir == -1
        invariant Coloured(t) && IsBlack(t) && CtxColoured(c, BlackHeight(t) + 1)
        invariant AllItems(c, t) == AllItems(c0, t0) && Nodes(c, t) == Nodes(c0, t0)
        decreases tos
      {
        ghost var v; var done;
        AboveOnStack(stack, c.up, tos);
        v, done := FixBlack(x, y, tos, right, c, t);
        if done || tos == 0 {
          c, t := c.up, v;
          if !done { RootColoured(c, BlackHeight(t)); }
          return;
        }
        PathLength(c.up);
        MinSteps'(c, right);
        c, t := c.up, v;
        MinSteps'(c, right);
        Ascend(c, t);
        Short(c, t);
        var r := x;
        tos := tos - 1;
        x := stack[tos];
        y := if x.left == r then x.right else x.left;
      }
      c, t := FixRed(x, y, tos, right, c, t);
    }

    lemma MinSteps'(c: Route, right: bool)
      ensures right && Before(c) == [] && c.Frame? ==> c.dir == -1 && Before(c.up) == []
    {
      if Before(c) == [] { MinSteps(c); }
    }

    /** The end of a deletion: `r`, which starts the subtree `t`, has moved up to below `x`, next to `y`. */
    method Rebalance(removed: Colour, r: Node?<Colour>, x: Node?<Colour>, y: Node?<Colour>, tos: int, right: bool,
                     ghost c: Route, ghost t: Shape)
      requires Attached(c, t, root) && Coloured(t) && r == Ptr(t) && x == Above(c)
      requires c.Frame? ==> y == Ptr(c.sibling) && OnStack(stack, c.up, tos) && tos < STACK_SIZE
      requires CtxColoured(c, BlackHeight(t) + Weight(removed)) && (removed.Red? ==> IsBlack(t))
      requires right ==> Before(c) == []
      modifies this`root, this`n, this`tree, stack, Nodes(c, t)
      ensures Shaped() && n == old(n) - 1
      ensures Inorder(tree) == AllItems(c, t) && Refs(tree) == Nodes(c, t)
    {
      hide Coloured, CtxColoured, BlackHeight, Attached, AllItems, Holds, CtxHolds, Distinct, CtxDistinct, Before,
           Refs, CtxRefs, Shaped;
      n := n - 1;
      RootInfo(c, t);
      if removed.Black? {
        if r == null || r.info.Black? {
          if x != null {
            Short(c, t);
            ghost var c', t';
            c', t' := FixShort(x, y, tos, right, c, t);
            Settle(c', t');
          } else {
            RootColoured(c, BlackHeight(t));
            Settle(c, t);
          }
        } else {
          PaintRoot(r, c, t);
          Blackened(t);
          Settle(c, t.(info := Black));
        }
      } else {
        Settle(c, t);
      }
    }

    lemma RootInfo(c: Route, t: Shape)
      requires Attached(c, t, root)
      ensures t.Branch? ==> t.node.info == t.info && t.node in Nodes(c, t)
    {
    }

    lemma Blackened(t: Shape)
      requires t.Branch? && t.info.Red? && Coloured(t)
      ensures Coloured(t.(info := Black)) && BlackHeight(t.(info := Black)) == BlackHeight(t) + 1
    {
    }

    method PaintRoot(r: RbNode, ghost c: Route, ghost t: Shape)
      requires Attached(c, t, root) && t.Branch? && r == t.node
      modifies r`info
      ensures Attached(c, t.(info := Black), root)
      ensures AllItems(c, t.(info := Black)) == AllItems(c, t) && Nodes(c, t.(info := Black)) == Nodes(c, t)
    {
      ghost var k := t.(info := Black);
      assert Refs(k) == Refs(t) && Inorder(k) == Inorder(t) && Distinct(k);
      hide Inorder, Before, After, Refs, CtxRefs, Distinct, CtxDistinct;
      RootInfo(c, t);
      r.info := Black;
      assert Holds(k);
    }

    method Delete(key: Item) returns (found: Option<Item>)
      requires Valid()
      modifies this, stack, Refs(tree)
      ensures Valid() && Refs(tree) <= old(Refs(tree))
      ensures found == Lookup(old(Contents()), key.key)
      ensures Contents() == old(Contents()) - {key.key}
    {
      hide MapOf, Height, Coloured, CtxColoured, BlackHeight, Attached, Shaped, Inorder, Refs, CtxRefs, Before, After,
           AllItems, Leads, Without;
      assert allocated(Refs(tree));
      var p, tos, side; ghost var c, t;
      p, tos, side, c, t := Search(key);
      Pieces(c, t);
      if p == null {
        Missing(c, key);
        return None;
      }
      Found(c, t);
      found := Some(p.item);
      if p.left == null {
        DeleteOuter(p, p.right, tos, c, t);
      } else if p.right == null {
        DeleteOuter(p, p.left, tos, c, t);
      } else {
        DeleteInner(p, tos, c, t);
      }
    }

    /** `p` has at most one child, `r`, which replaces it. */
    method DeleteOuter(p: RbNode, r: Node?<Colour>, tos0: int, ghost c: Route, ghost t: Shape)
      requires OnStack(stack, c, tos0) && Attached(c, t, root) && t.Branch? && p == t.node
      requires (t.left.Leaf? || t.right.Leaf?) && r == Ptr(OnlyChild(t))
      requires Coloured(t) && CtxColoured(c, BlackHeight(t)) && Fits(c, t)
      modifies this`root, this`n, this`tree, stack, Nodes(c, t)
      ensures Shaped() && n == old(n) - 1
      ensures Inorder(tree) == Without(c, t) && Refs(tree) <= Nodes(c, t)
    {
      hide Coloured, CtxColoured, BlackHeight, Attached, AllItems, Holds, CtxHolds, Distinct, CtxDistinct, Before,
           Refs, CtxRefs, Shaped, Without;
      AboveOnStack(stack, c, tos0);
      PathLength(c);
      Spliced(c, t, root);
      TakenOut(c, t);
      Apart(c, t);
      RootInfo(c, t);
      var tos, x, y := tos0, null, null;
      var removed := p.info;
      if tos0 != 0 {
        Neighbours(c, t);
        tos := tos - 1;
        x := stack[tos];
        y := if p == x.left then x.right else x.left;
      }
      root := Splice(root, x, p, r, c, t);
      Rebalance(removed, r, x, y, tos, false, c, OnlyChild(t));
    }

    /** Which child of the parent the subtree `t` is. */
    lemma Neighbours(c: Route, t: Shape)
      requires Attached(c, t, root) && c.Frame? && t.Branch?
      ensures Ptr(c.sibling) == if t.node == c.node.left then c.node.right else c.node.left
    {
      assert c.sibling.Branch? ==> c.sibling.node in Refs(c.sibling);
      assert t.node in Refs(t);
    }

    /** `p` has two children: the minimum of its right subtree replaces it. */
    method DeleteInner(p: RbNode, tos0: int, ghost c: Route, ghost t: Shape)
      requires OnStack(stack, c, tos0) && Attached(c, t, root) && t.Branch? && p == t.node
      requires t.left.Branch? && t.right.Branch? && Depth(c) + Height(t) < STACK_SIZE - 1
      requires Coloured(t) && CtxColoured(c, BlackHeight(t)) && Fits(c, t)
      modifies this`root, this`n, this`tree, stack, Nodes(c, t)
      ensures Shaped() && n == old(n) - 1
      ensures Inorder(tree) == Without(c, t) && Refs(tree) <= Nodes(c, t)
    {
      hide Coloured, CtxColoured, BlackHeight, AllItems, Attached, Holds, CtxHolds, Distinct, CtxDistinct, Before,
           Refs, CtxRefs, Shaped, Without, Height;
      var tos; ghost var d, s;
      var removed, r;
      var left := p.left;
      LeftPointer(c, t);
      tos, removed, r, d, s := ReplaceByMin(p, tos0, c, t);
      ghost var c' := Promoted(c, t, d, s);
      PromotedItems(c, t, d, s);
      PromotedNodes(c, t, d, s);
      PromotedColoured(c, t, d, s);
      TakenOut(c', s);
      PathLength(c);
      PathLength(c'.up);
      tos := tos - 1;
      PromotedFrame(c, t, d, s, tos);
      var x: RbNode := stack[tos];
      PromotedSibling(c, t, d, s, root);
      var y := if tos != tos0 then x.right else left;
      Rebalance(removed, r, x, y, tos, false, c', s.right);
    }

    lemma LeftPointer(c: Route, t: Shape)
      requires Attached(c, t, root) && t.Branch?
      ensures t.node.left == Ptr(t.left) && Holds(t)
    {
    }

    /** The minimum takes the place of `p` in the tree and on the stack, with the colour of `p`. */
    method ReplaceByMin(p: RbNode, tos0: int, ghost c: Route, ghost t: Shape)
        returns (tos: int, removed: Colour, r: Node?<Colour>, ghost d: Route, ghost s: Shape)
      requires OnStack(stack, c, tos0) && Attached(c, t, root) && t.Branch? && p == t.node
      requires t.left.Branch? && t.right.Branch? && Depth(c) + Height(t) < STACK_SIZE - 1
      modifies this`root, stack, Nodes(c, t)
      ensures MinBelow(t, d, s) && Attached(Promoted(c, t, d, s), s.right, root)
      ensures OnStack(stack, Promoted(c, t, d, s), tos) && tos == tos0 + 1 + Depth(d)
      ensures removed == s.info && r == Ptr(s.right)
    {
      hide Distinct, CtxDistinct, Refs, CtxRefs, Inorder, Before, After, Holds, CtxHolds, Height;
      LeftPointer(c, t);
      assert allocated(CtxRefs(c)) && allocated(Refs(t));
      var m;
      m, tos, d, s := DescendMin(p, stack, tos0, c, t);
      PromotedNodes(c, t, d, s);
      PathLength(c);
      PromotedPath(c, t, d, s);
      AboveOnStack(stack, c, tos0);
      MinRoot(t, d, s);
      removed, r := m.info, m.right;
      root := PutMin(root, if tos0 == 0 then null else stack[tos0 - 1], p, m, stack[tos - 1], c, t, d, s);
      stack[tos0] := m;
    }

    lemma MinRoot(t: Shape, d: Route, s: Shape)
      requires Holds(t) && MinBelow(t, d, s)
      ensures s.node.info == s.info && s.node.right == Ptr(s.right)
    {
      PlugHolds(d, s);
    }

    /** The path to where the minimum was ends in the promoted node or in the parent of the minimum. */
    lemma PromotedFrame(c: Route, t: Shape, d: Route, s: Shape, tos: int)
      requires MinBelow(t, d, s) && OnStack(stack, Promoted(c, t, d, s), tos + 1)
      ensures var c' := Promoted(c, t, d, s);
              c'.Frame? && OnStack(stack, c'.up, tos) && stack[tos] == c'.node
    {
      PathLength(Promoted(c, t, d, s));
    }

    lemma PromotedSibling(c: Route, t: Shape, d: Route, s: Shape, root: Node?<Colour>)
      requires MinBelow(t, d, s) && Attached(Promoted(c, t, d, s), s.right, root)
      ensures var c' := Promoted(c, t, d, s);
              c'.Frame? && (d.Top? ==> c'.sibling == t.left) && (d.Frame? ==> c'.node.right == Ptr(c'.sibling))
    {
      MinSteps(d);
    }

    method DeleteMin() returns (found: Option<Item>)
      requires Valid()
      modifies this, stack, Refs(tree)
      ensures Valid() && Refs(tree) <= old(Refs(tree))
      ensures found == Least(old(Contents()))
      ensures Contents() == AfterDeleteMin(old(Contents()))
    {
      hide MapOf, Least, AfterDeleteMin, Height, Coloured, CtxColoured, BlackHeight, Attached, Holds, Distinct, Inorder,
           Refs, CtxRefs, Before, After, AllItems, Without;
      LeastOfSorted(Inorder(tree));
      EmptyTree(tree);
      if root == null {
        return None;
      }
      assert allocated(Refs(tree));
      StackSuffices(tree);
      var p, tos; ghost var c, t;
      p, tos, c, t := LeftSpine(root, stack, tree);
      Pieces(c, t);
      FirstItem(c, t);
      found := Some(p.item);
      Spliced(c, t, root);
      TakenOut(c, t);
      AboveOnStack(stack, c, tos);
      Apart(c, t);
      PathLength(c);
      MinSteps(c);
      var x, y, r, removed := null, null, p.right, p.info;
      if tos != 0 {
        tos := tos - 1;
        x := stack[tos];
        Neighbours(c, t);
        MinNeighbour(c, t);
        y := x.right;
      }
      root := UnlinkMin(root, x, p, c, t);
      Rebalance(removed, r, x, y, tos, true, c, t.right);
    }

    lemma MinNeighbour(c: Route, t: Shape)
      requires Attached(c, t, root) && c.Frame? && c.dir == -1
      ensures c.node.right == Ptr(c.sibling)
    {
    }

    // ---------- Queries ----------

    method FindItem(key: Item) returns (found: Option<Item>)
      requires Valid()
      ensures Valid() && found == Lookup(old(Contents()), key.key)
    {
      assert allocated(Refs(tree));
      found := BinaryTree.Find(root, key, tree);
    }

    method FindMinItem() returns (found: Option<Item>)
      requires Valid()
      ensures Valid() && found == Least(old(Contents()))
    {
      assert allocated(Refs(tree));
      found := BinaryTree.FindMin(root, tree);
    }
  }
}
