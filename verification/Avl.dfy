/** AVL trees (italos/lib/avl.c): insertion and deletion over mutable nodes with an explicit path stack. */
module AvlTree {
  import opened Items
  import opened Wrappers
  import opened BinaryTree

  // ---------- Balance ----------

  /** Every balance is the height of the right subtree less that of the left one, and in -1..1. */
  ghost predicate Balanced(t: Tree<int>) {
    t.Leaf? ||
    (t.info == Height(t.right) - Height(t.left) && -1 <= t.info <= 1 &&
     Balanced(t.left) && Balanced(t.right))
  }

  /** The path is balanced once a subtree of height `h` hangs at its end. */
  ghost predicate CtxBalanced(c: Ctx<int>, h: int) {
    c.Top? ||
    (h >= 0 && Balanced(c.sibling) && -1 <= c.info <= 1 &&
     c.info == (if c.dir == 1 then h - Height(c.sibling) else Height(c.sibling) - h) &&
     CtxBalanced(c.up, 1 + Max(h, Height(c.sibling))))
  }

  lemma {:induction false} PlugBalanced(c: Ctx<int>, t: Tree<int>)
    ensures Balanced(Plug(c, t)) <==> CtxBalanced(c, Height(t)) && Balanced(t)
    decreases c
  {
    if c.Frame? {
      PlugBalanced(c.up, Fill(c.dir, c.node, c.item, c.info, c.sibling, t));
    }
  }

  // ---------- Size against height ----------

  ghost function Fib(n: nat): nat {
    if n < 2 then n else Fib(n - 1) + Fib(n - 2)
  }

  lemma {:induction false} FibMonotone(m: nat, n: nat)
    ensures m <= n ==> Fib(m) <= Fib(n)
    decreases n
  {
    if 2 <= n && m < n { FibMonotone(m, n - 1); }
  }

  /** An AVL tree of height h has at least Fib(h + 2) - 1 items. */
  lemma {:induction false} BalancedSize(t: Tree<int>)
    requires Balanced(t)
    ensures |Inorder(t)| >= Fib(Height(t) + 2) - 1
  {
    if t.Branch? {
      BalancedSize(t.left);
      BalancedSize(t.right);
      var h := Height(t);
      var low := if Height(t.left) < Height(t.right) then Height(t.left) else Height(t.right);
      FibMonotone(h, low + 2);
    }
  }

  lemma {:induction false} FibDoubles(k: nat)
    ensures Fib(2 * k + 2) >= Pow2(k)
  {
    if k > 0 {
      FibDoubles(k - 1);
      FibMonotone(2 * k, 2 * k + 1);
    }
  }

  /** The height is logarithmic in the number of items. */
  lemma HeightLogarithmic(t: Tree<int>, k: nat)
    requires Balanced(t) && |Inorder(t)| + 1 < Pow2(k)
    ensures Height(t) < 2 * k
  {
    FibMonotone(2 * k + 2, Height(t) + 2);
    BalancedSize(t);
    FibDoubles(k);
  }

  /** As long as the count fits a C int, no path overflows the stack. */
  lemma StackSuffices(t: Tree<int>)
    requires Balanced(t) && |Inorder(t)| <= INT_MAX
    ensures Height(t) < STACK_SIZE
  {
    Pow2At31();
    HeightLogarithmic(t, 32);
  }

  // ---------- Rotations ----------

  method RotateSingle(p: Node<int>, q: Node<int>, heavy: Dir, bp: int, bq: int, ghost u: Tree<int>)
    requires Leaning(u, heavy) && Holds(u) && Distinct(u)
    requires p == u.node && q == (if heavy == 1 then u.right else u.left).node
    modifies p, q
    ensures Holds(Single(u, heavy, bp, bq))
  {
    if heavy == 1 {
      p.right := q.left;
      q.left := p;
    } else {
      p.left := q.right;
      q.right := p;
    }
    p.info, q.info := bp, bq;
  }

  /** The pointer and balance updates of a double rotation, field by field. */
  method RelinkDouble(p: Node<int>, q: Node<int>, r: Node<int>, heavy: Dir)
    requires p != q && q != r && p != r
    modifies p, q, r
    ensures p.item == old(p.item) && q.item == old(q.item) && r.item == old(r.item)
    ensures r.info == 0
    ensures if heavy == 1 then
              r.left == p && r.right == q && p.left == old(p.left) && p.right == old(r.left) &&
              q.left == old(r.right) && q.right == old(q.right) &&
              p.info == (if old(r.info) == 1 then -1 else 0) && q.info == (if old(r.info) == -1 then 1 else 0)
            else
              r.left == q && r.right == p && p.right == old(p.right) && p.left == old(r.right) &&
              q.right == old(r.left) && q.left == old(q.left) &&
              p.info == (if old(r.info) == -1 then 1 else 0) && q.info == (if old(r.info) == 1 then -1 else 0)
  {
    if heavy == 1 {
      q.left := r.right;
      p.right := r.left;
      r.right := q;
      r.left := p;
      if r.info == 1 {
        p.info := -1;
        q.info := 0;
      } else if r.info == -1 {
        p.info := 0;
        q.info := 1;
      } else {
        p.info, q.info := 0, 0;
      }
    } else {
      q.right := r.left;
      p.left := r.right;
      r.left := q;
      r.right := p;
      if r.info == 1 {
        p.info := 0;
        q.info := -1;
      } else if r.info == -1 {
        p.info := 1;
        q.info := 0;
      } else {
        p.info, q.info := 0, 0;
      }
    }
    r.info := 0;
  }

  method RotateDouble(p: Node<int>, q: Node<int>, r: Node<int>, heavy: Dir, ghost u: Tree<int>)
    requires Bent(u, heavy) && Holds(u) && Distinct(u)
    requires p == u.node
    requires if heavy == 1 then q == u.right.node && r == u.right.left.node
             else q == u.left.node && r == u.left.right.node
    modifies p, q, r
    ensures Holds(Double(u, heavy, p.info, q.info, 0))
    ensures p.info == LowBalance(heavy, old(r.info)) && q.info == HighBalance(heavy, old(r.info))
  {
    hide Inorder, Refs, Distinct, Holds;
    ghost var t, s := Child(u, heavy), Child(Child(u, heavy), Opp(heavy));
    ghost var a, d := Child(u, Opp(heavy)), Child(t, heavy);
    BeforeDouble(p, q, r, heavy, u);
    assert allocated(Refs(a)) && allocated(Refs(d)) && allocated(Refs(s.left)) && allocated(Refs(s.right));
    RelinkDouble(p, q, r, heavy);
    assert Holds(a) && Holds(d) && Holds(s.left) && Holds(s.right);
    DoubleHolds(p, q, r, heavy, u);
  }

  /** The balances a double rotation gives the old root and its child. */
  ghost function LowBalance(heavy: Dir, b: int): int {
    if heavy == 1 then (if b == 1 then -1 else 0) else (if b == -1 then 1 else 0)
  }

  ghost function HighBalance(heavy: Dir, b: int): int {
    if heavy == 1 then (if b == -1 then 1 else 0) else (if b == 1 then -1 else 0)
  }

  /** A subtree that leans over by two towards a child that leans the same way, or not at all, is
      balanced by a single rotation. */
  lemma SingleBalances(u: Tree<int>, heavy: Dir)
    requires u.Branch? && Balanced(u.left) && Balanced(u.right)
    requires Height(Child(u, heavy)) == Height(Child(u, Opp(heavy))) + 2
    requires Child(u, heavy).info != Opp(heavy)
    ensures var q, h := Child(u, heavy), Height(Child(u, heavy));
            if q.info == 0 then
              var v := Single(u, heavy, heavy, Opp(heavy)); Balanced(v) && Height(v) == h + 1
            else
              var v := Single(u, heavy, 0, 0); Balanced(v) && Height(v) == h
  {
    var q, h := Child(u, heavy), Height(Child(u, heavy));
    assert Balanced(q) && Balanced(q.left) && Balanced(q.right);
    assert Height(Child(q, heavy)) == h - 1;
  }

  /** When the child leans the other way, a double rotation does. */
  lemma DoubleBalances(u: Tree<int>, heavy: Dir)
    requires u.Branch? && Balanced(u.left) && Balanced(u.right)
    requires Height(Child(u, heavy)) == Height(Child(u, Opp(heavy))) + 2
    requires Child(u, heavy).info == Opp(heavy)
    ensures Bent(u, heavy) &&
            var r := Child(Child(u, heavy), Opp(heavy));
            var v := Double(u, heavy, LowBalance(heavy, r.info), HighBalance(heavy, r.info), 0);
            Balanced(v) && Height(v) == Height(Child(u, heavy))
  {
    var q, h := Child(u, heavy), Height(Child(u, heavy));
    BalancedParts(q);
    var r := Child(q, Opp(heavy));
    BalancedParts(r);
    hide Balanced, Height;
    var v := Double(u, heavy, LowBalance(heavy, r.info), HighBalance(heavy, r.info), 0);
    BalancedBranch(v.left);
    BalancedBranch(v.right);
    BalancedBranch(v);
  }

  lemma BalancedParts(t: Tree<int>)
    requires t.Branch? && Balanced(t)
    ensures Balanced(t.left) && Balanced(t.right) && t.info == Height(t.right) - Height(t.left) && -1 <= t.info <= 1
    ensures Height(t) == 1 + Max(Height(t.left), Height(t.right))
    ensures t.left.Leaf? ==> Height(t.left) == 0
    ensures t.right.Leaf? ==> Height(t.right) == 0
  {
  }

  lemma BalancedBranch(t: Tree<int>)
    requires t.Branch? && Balanced(t.left) && Balanced(t.right)
    requires t.info == Height(t.right) - Height(t.left) && -1 <= t.info <= 1
    ensures Balanced(t) && Height(t) == 1 + Max(Height(t.left), Height(t.right))
  {
  }

  // ---------- What a change of height does to the parent ----------

  lemma HeightOfFilled(c: Ctx<int>, t: Tree<int>, b: int)
    requires c.Frame?
    ensures Height(Refill(c, t, b)) == 1 + Max(Height(t), Height(c.sibling))
    ensures t.Branch? && t.left.Leaf? && t.right.Leaf? ==> Height(t) == 1
    ensures c.sibling.Leaf? ==> Height(c.sibling) == 0
  {
  }

  /** The frame at the end of the path, filled with a subtree of another height, is balanced as soon
      as its balance is the new difference of heights. */
  lemma FilledBalanced(c: Ctx<int>, t: Tree<int>, h: int, b: int)
    requires c.Frame? && Balanced(t) && CtxBalanced(c, h)
    requires -1 <= b <= 1 && b == (if c.dir == 1 then Height(t) - Height(c.sibling) else Height(c.sibling) - Height(t))
    ensures Balanced(Refill(c, t, b))
    ensures CtxBalanced(c.up, 1 + Max(h, Height(c.sibling)))
  {
  }

  /** A subtree that grew by one: the parent grows too, stays as high, or leans over by two. */
  lemma Grow(c: Ctx<int>, t: Tree<int>)
    requires c.Frame? && t.Branch? && Balanced(t) && CtxBalanced(c, Height(t) - 1)
    ensures Balanced(c.sibling) && -1 <= c.info <= 1
    ensures c.info == 0 ==>
              var u := Refill(c, t, c.dir); Balanced(u) && CtxBalanced(c.up, Height(u) - 1)
    ensures c.info == Opp(c.dir) ==>
              var u := Refill(c, t, 0); Balanced(u) && CtxBalanced(c.up, Height(u))
    ensures c.info == c.dir ==>
              Height(t) == Height(c.sibling) + 2 && CtxBalanced(c.up, Height(t)) &&
              (t.left.Branch? || t.right.Branch?)
  {
    hide Height, Balanced;
    var b := c.info + c.dir;
    HeightOfFilled(c, t, b);
    if c.info != c.dir { FilledBalanced(c, t, Height(t) - 1, b); }
  }

  /** A subtree that shrank by one: the parent stays as high, shrinks too, or leans over by two. */
  lemma Shrink(c: Ctx<int>, t: Tree<int>)
    requires c.Frame? && Balanced(t) && CtxBalanced(c, Height(t) + 1)
    ensures Balanced(c.sibling) && -1 <= c.info <= 1
    ensures c.info == 0 ==>
              var u := Refill(c, t, Opp(c.dir)); Balanced(u) && CtxBalanced(c.up, Height(u))
    ensures c.info == c.dir ==>
              var u := Refill(c, t, 0); Balanced(u) && CtxBalanced(c.up, Height(u) + 1)
    ensures c.info == Opp(c.dir) ==>
              Height(c.sibling) == Height(t) + 2 && CtxBalanced(c.up, Height(c.sibling) + 1)
  {
    hide Height, Balanced;
    var b := c.info - c.dir;
    HeightOfFilled(c, t, b);
    if c.info != Opp(c.dir) { FilledBalanced(c, t, Height(t) + 1, b); }
  }

  /** Replacing the node and item of the topmost frame of a path leaves its balance alone. */
  lemma {:induction false} SwapTopBalanced(c: Ctx<int>, c': Ctx<int>, d: Ctx<int>, h: nat)
    requires c.Frame? && c'.Frame? && c' == c.(node := c'.node, item := c'.item)
    ensures CtxBalanced(Join(c, d), h) <==> CtxBalanced(Join(c', d), h)
    decreases d
  {
    if d.Frame? {
      SwapTopBalanced(c, c', d.up, 1 + Max(h, Height(d.sibling)));
    }
  }

  lemma HalfLeaf(t: Tree<int>)
    requires t.Branch? && Balanced(t)
    ensures Balanced(t.left) && Balanced(t.right)
    ensures t.left.Leaf? ==> Height(t.right) == Height(t) - 1
    ensures t.right.Leaf? ==> Height(t.left) == Height(t) - 1
  {
  }

  lemma PromotedBalanced(c: Ctx<int>, t: Tree<int>, d: Ctx<int>, s: Tree<int>)
    requires MinBelow(t, d, s) && Balanced(t) && CtxBalanced(c, Height(t))
    ensures Balanced(s.right) && CtxBalanced(Promoted(c, t, d, s), Height(s.right) + 1)
  {
    var f := Down(c, t, 1);
    PlugJoin(f, d, s);
    PlugBalanced(c, t);
    PlugBalanced(Join(f, d), s);
    SwapTopBalanced(f, Frame(c, 1, s.node, s.item, t.info, t.left), d, Height(s));
    HalfLeaf(s);
  }

  // ---------- The dictionary ----------

  class Avl {
    var root: Node?<int>
    var n: int
    const stack: array<Node?<int>>
    const path_info: array<int>
    ghost var tree: Tree<int>

    constructor ()
      ensures Valid() && Contents() == map[] && n == 0
      ensures fresh(stack) && fresh(path_info) && fresh(Refs(tree))
    {
      root, n := null, 0;
      stack := new Node?<int>[STACK_SIZE](_ => null);
      path_info := new int[STACK_SIZE](_ => 0);
      tree := Leaf;
    }

    ghost predicate Valid()
      reads this, Refs(tree)
    {
      Shaped() && n == |Inorder(tree)| <= INT_MAX && Sorted(Inorder(tree)) &&
      stack.Length == path_info.Length == STACK_SIZE
    }

    /** The nodes form `tree`, which is balanced. */
    ghost predicate Shaped()
      reads this`root, this`tree, Refs(tree)
    {
      root == Ptr(tree) && Holds(tree) && Distinct(tree) && Balanced(tree)
    }

    ghost function Contents(): Contents
      requires Valid()
      reads this, Refs(tree)
    {
      MapOf(Inorder(tree))
    }

    /** The path `c` leads from the root to the subtree `t`. */
    ghost predicate At(c: Ctx<int>, t: Tree<int>)
      reads this`root, CtxRefs(c), Refs(t)
    {
      Attached(c, t, root)
    }

    /** The first `tos` entries of the stack are the nodes of the path `c`. */
    ghost predicate Stacked(c: Ctx<int>, tos: int)
      reads stack
    {
      OnStack(stack, c, tos)
    }

    /** ... and `path_info` holds the steps taken from them. */
    ghost predicate Recorded(c: Ctx<int>, tos: int)
      reads stack, path_info
    {
      Stacked(c, tos) && path_info.Length == STACK_SIZE && path_info[..tos] == Steps(c)
    }

    lemma LastStep(c: Ctx<int>, t: Tree<int>, tos: int)
      requires At(c, t) && Stacked(c, tos) && tos != 0
      ensures c.Frame? && Stacked(c.up, tos - 1) && stack[tos - 1] == c.node
      ensures c.node in Nodes(c, t) && c.node.info == c.info
      ensures Recorded(c, tos) ==> Recorded(c.up, tos - 1) && path_info[tos - 1] == c.dir
    {
      PathLength(c);
    }

    lemma NoFrame(c: Ctx<int>, h: int)
      requires Stacked(c, 0)
      ensures c.Top? && CtxBalanced(c, h)
    {
      PathLength(c);
    }

    method Push(p: Node<int>, dir: Dir, tos: int, ghost c: Ctx<int>, ghost t: Tree<int>)
      requires Recorded(c, tos) && tos < STACK_SIZE && t.Branch? && p == t.node
      modifies stack, path_info
      ensures Recorded(Down(c, t, dir), tos + 1)
    {
      stack[tos] := p;
      path_info[tos] := dir;
    }

    /** Searches for the key of `k`: ends at the node with that key, or at the place where it is missing. */
    method Search(k: Item) returns (p: Node?<int>, tos: int, ghost c: Ctx<int>, ghost t: Tree<int>)
      requires Valid()
      modifies stack, path_info
      ensures Recorded(c, tos) && At(c, t) && Plug(c, t) == tree && p == Ptr(t)
      ensures Leads(c, k.key) && (t.Branch? ==> t.item.key == k.key)
    {
      StackSuffices(tree);
      c, t := Top, tree;
      p, tos := root, 0;
      while p != null && Compar(k, p.item) != 0
        invariant Recorded(c, tos) && Plug(c, t) == tree && p == Ptr(t)
        invariant Holds(tree) && Holds(t)
        invariant Leads(c, k.key) && Sorted(Inorder(t))
        decreases t
      {
        PathHeight(c, t);
        PathLength(c);
        var dir: Dir := if Compar(k, p.item) < 0 then -1 else 1;
        var next := if dir == -1 then p.left else p.right;
        assert allocated(Refs(tree));
        Push(p, dir, tos, c, t);
        StepLeads(c, t, k.key, dir);
        c, t := Down(c, t, dir), Child(t, dir);
        PlugHolds(c, t);
        p, tos := next, tos + 1;
      }
      TakeApart(c, t);
    }

    /** The child pointer at the end of the path, or the root, changes to `q`. */
    method Relink(q: Node?<int>, tos: int, dir: Dir, ghost c: Ctx<int>, ghost hole: Node?<int>)
      requires Stacked(c, tos) && (c.Frame? ==> dir == c.dir) && CtxHolds(c, hole, root) && CtxDistinct(c)
      modifies this`root, if c.Top? then {} else {c.node}
      ensures CtxHolds(c, q, root)
    {
      if tos != 0 {
        if dir == 1 {
          stack[tos - 1].right := q;
        } else {
          stack[tos - 1].left := q;
        }
      } else {
        root := q;
      }
    }

    method Hang(q: Node?<int>, tos: int, dir: Dir, ghost c: Ctx<int>, ghost hole: Node?<int>, ghost v: Tree<int>)
      requires Stacked(c, tos) && (c.Frame? ==> dir == c.dir) && CtxHolds(c, hole, root) && CtxDistinct(c)
      requires q == Ptr(v) && Holds(v) && Distinct(v) && CtxRefs(c) !! Refs(v)
      modifies this`root, CtxRefs(c)
      ensures At(c, v)
    {
      Apart(c, v);
      assert allocated(Refs(v));
      hide Inorder, Refs, CtxRefs, Holds, CtxHolds, Distinct, CtxDistinct;
      Relink(q, tos, dir, c, hole);
      assert Holds(v);
    }

    /** Rotates the subtree `u` at the end of the path and hangs the result in its place. */
    method LiftSingle(p: Node<int>, q: Node<int>, heavy: Dir, bp: int, bq: int, tos: int, dir: Dir,
                      ghost c: Ctx<int>, ghost u: Tree<int>)
      requires Stacked(c, tos) && (c.Frame? ==> dir == c.dir)
      requires At(c, u) && Leaning(u, heavy)
      requires p == u.node && q == Child(u, heavy).node
      modifies this`root, Nodes(c, u)
      ensures var v := Single(u, heavy, bp, bq);
              At(c, v) && AllItems(c, v) == AllItems(c, u) && Nodes(c, v) == Nodes(c, u)
    {
      hide Inorder, Before, After, Refs, CtxRefs, Holds, CtxHolds, Distinct, CtxDistinct;
      ghost var v := Single(u, heavy, bp, bq);
      SingleKeeps(u, heavy, bp, bq);
      Apart(c, u);
      assert allocated(CtxRefs(c)) && allocated(Refs(u));
      RotateSingle(p, q, heavy, bp, bq, u);
      Hang(q, tos, dir, c, p, v);
    }

    /** The double rotation, with the balances `bp` and `bq` that the one of `r` asks for. */
    method LiftDouble(p: Node<int>, q: Node<int>, r: Node<int>, heavy: Dir, tos: int, dir: Dir,
                      ghost c: Ctx<int>, ghost u: Tree<int>, ghost bp: int, ghost bq: int)
      requires Stacked(c, tos) && (c.Frame? ==> dir == c.dir)
      requires At(c, u) && Bent(u, heavy)
      requires p == u.node && q == Child(u, heavy).node && r == Child(Child(u, heavy), Opp(heavy)).node
      requires bp == LowBalance(heavy, r.info) && bq == HighBalance(heavy, r.info)
      modifies this`root, Nodes(c, u)
      ensures var v := Double(u, heavy, bp, bq, 0);
              At(c, v) && AllItems(c, v) == AllItems(c, u) && Nodes(c, v) == Nodes(c, u)
    {
      hide Inorder, Before, After, Refs, CtxRefs, Holds, CtxHolds, Distinct, CtxDistinct, LowBalance, HighBalance,
           Double;
      ghost var v := Double(u, heavy, bp, bq, 0);
      DoubleNodes(p, q, r, heavy, u);
      DoubleLifted(c, u, heavy, bp, bq);
      hide AllItems, Nodes;
      assert allocated(CtxRefs(c)) && allocated(Refs(u));
      RotateDouble(p, q, r, heavy, u);
      assert Holds(v);
      Hang(r, tos, dir, c, p, v);
    }

    lemma Middle(r: Node<int>, heavy: Dir, c: Ctx<int>, u: Tree<int>)
      requires At(c, u) && Bent(u, heavy) && r == Child(Child(u, heavy), Opp(heavy)).node
      ensures r.info == Child(Child(u, heavy), Opp(heavy)).info
    {
      DoubleNodes(u.node, Child(u, heavy).node, r, heavy, u);
    }

    /** Where the rotated subtree may hang, and what it holds. */
    lemma DoubleLifted(c: Ctx<int>, u: Tree<int>, heavy: Dir, bp: int, bq: int)
      requires At(c, u) && Bent(u, heavy)
      ensures Holds(u) && Distinct(u) && Ptr(u) == u.node && CtxDistinct(c) && CtxHolds(c, u.node, root)
      ensures CtxRefs(c) !! Refs(u) && Nodes(c, u) == CtxRefs(c) + Refs(u)
      ensures var v := Double(u, heavy, bp, bq, 0);
              Distinct(v) && CtxRefs(c) !! Refs(v) && Ptr(v) == Child(Child(u, heavy), Opp(heavy)).node &&
              AllItems(c, v) == AllItems(c, u) && Nodes(c, v) == Nodes(c, u)
    {
      hide Inorder, Before, After, Refs, CtxRefs, Holds, CtxHolds, Distinct, CtxDistinct, Double;
      DoubleKeeps(u, heavy, bp, bq, 0);
    }

    /** The rebalanced pieces make up the new tree. */
    ghost method Settle(c: Ctx<int>, t: Tree<int>)
      requires At(c, t) && Balanced(t) && CtxBalanced(c, Height(t))
      modifies this`tree
      ensures Shaped()
      ensures Inorder(tree) == AllItems(c, t) && Refs(tree) == Nodes(c, t)
    {
      Assemble(c, t, root);
      PlugBalanced(c, t);
      tree := Plug(c, t);
    }

    // ---------- Insertion ----------

    /** What the stacks say about a subtree `t` that has grown: which child of it has grown, and the
        node that child starts with; `x` is the inserted node, below the whole stack. */
    ghost predicate GrownBelow(t: Tree<int>, x: Node<int>, tos: int, stack_n: int)
      requires 0 <= tos <= stack_n <= STACK_SIZE == stack.Length == path_info.Length
      reads stack, path_info
    {
      t.Branch? &&
      if tos == stack_n then t.node == x && t.left.Leaf? && t.right.Leaf?
      else
        stack[tos] == t.node && path_info[tos] == t.info && (t.info == 1 || t.info == -1) &&
        Ptr(Child(t, t.info)) == (if tos + 1 < stack_n then stack[tos + 1] else x)
    }

    method Insert(item: Item) returns (existing: Option<Item>)
      requires Valid() && (item.key in Contents() || n < INT_MAX)
      modifies this, stack, path_info, Refs(tree)
      ensures Valid() && fresh(Refs(tree) - old(Refs(tree)))
      ensures existing == Lookup(old(Contents()), item.key)
      ensures Contents() == AfterInsert(old(Contents()), item)
    {
      hide MapOf, Height, Balanced, CtxBalanced, At, Shaped, Inorder, Refs, CtxRefs, Before, After, AllItems, Nodes,
           Leads;
      assert allocated(Refs(tree));
      var p, tos; ghost var c, t;
      p, tos, c, t := Search(item);
      Pieces(c, t);
      if p != null {
        Found(c, t);
        return Some(p.item);
      }
      Missing(c, item);
      var x := AttachNew(item, tos, c);
      NewLeaf(c, x, item);
      RebalanceInsert(x, tos, c, Branch(Leaf, x, item, 0, Leaf));
      existing := None;
    }

    /** What the tree is, told in terms of a path and the subtree at its end. */
    lemma Pieces(c: Ctx<int>, t: Tree<int>)
      requires Valid() && Plug(c, t) == tree
      ensures AllItems(c, t) == Inorder(tree) && Nodes(c, t) == Refs(tree)
      ensures Balanced(t) && CtxBalanced(c, Height(t))
      ensures t.Branch? && At(c, t) ==> t.node.item == t.item
      ensures Depth(c) + Height(t) < STACK_SIZE
    {
      StackSuffices(tree);
      PathHeight(c, t);
      PlugInorder(c, t);
      PlugRefs(c, t);
      PlugBalanced(c, t);
    }

    lemma NewLeaf(c: Ctx<int>, x: Node<int>, item: Item)
      ensures var leaf := Branch(Leaf, x, item, 0, Leaf);
              AllItems(c, leaf) == Before(c) + [item] + After(c) && Nodes(c, leaf) == Nodes(c, Leaf) + {x} &&
              Balanced(leaf) && Height(leaf) == 1 && Height<int>(Leaf) == 0
    {
      var leaf := Branch(Leaf, x, item, 0, Leaf);
      assert Inorder(leaf) == [item];
    }

    method AttachNew(item: Item, tos: int, ghost c: Ctx<int>) returns (x: Node<int>)
      requires Recorded(c, tos) && At(c, Leaf)
      modifies this`root, this`n, Nodes(c, Leaf)
      ensures fresh(x) && At(c, Branch(Leaf, x, item, 0, Leaf)) && n == old(n) + 1
    {
      assert allocated(CtxRefs(c));
      x := new Node(item, 0);
      var dir := if tos != 0 then path_info[tos - 1] else 1;
      PathLength(c);
      Relink(x, tos, dir, c, null);
      n := n + 1;
    }

    method SetBalance(p: Node<int>, b: int, ghost c: Ctx<int>, ghost t: Tree<int>)
      requires At(c, t) && c.Frame? && p == c.node
      modifies p`info
      ensures At(c.up, Refill(c, t, b)) && p.info == b
    {
      SetInfo(p, b, c, t, root);
    }

    /** Walks back up the stack after node `x` was attached, restoring the balances. */
    method RebalanceInsert(x: Node<int>, stack_n: int, ghost c0: Ctx<int>, ghost t0: Tree<int>)
      requires Recorded(c0, stack_n) && At(c0, t0) && GrownBelow(t0, x, stack_n, stack_n)
      requires Balanced(t0) && CtxBalanced(c0, Height(t0) - 1)
      modifies this`root, this`tree, Nodes(c0, t0)
      ensures Shaped()
      ensures Inorder(tree) == AllItems(c0, t0) && Refs(tree) == Nodes(c0, t0)
    {
      hide At, AllItems, Nodes, Balanced, CtxBalanced, Height;
      var tos := stack_n;
      ghost var c, t := c0, t0;
      while tos != 0
        invariant Recorded(c, tos) && At(c, t) && tos <= stack_n && GrownBelow(t, x, tos, stack_n)
        invariant Balanced(t) && CtxBalanced(c, Height(t) - 1)
        invariant AllItems(c, t) == AllItems(c0, t0) && Nodes(c, t) == Nodes(c0, t0)
      {
        LastStep(c, t, tos);
        Grow(c, t);
        tos := tos - 1;
        var p: Node<int> := stack[tos];
        var b := p.info + path_info[tos];
        RefillKeeps(c, t, b);
        SetBalance(p, b, c, t);
        if p.info - path_info[tos] == 0 {
          c, t := c.up, Refill(c, t, b);
        } else {
          if p.info == 0 {
            c, t := c.up, Refill(c, t, 0);
          } else {
            ghost var v := RotateGrown(p, x, tos, stack_n, c, t);
            c, t := c.up, v;
          }
          break;
        }
      }
      if tos == 0 { NoFrame(c, Height(t)); }
      Settle(c, t);
    }

    /** Node `p` leans over by two after its subtree `t` has grown. */
    method RotateGrown(p: Node<int>, x: Node<int>, tos: int, stack_n: int, ghost c: Ctx<int>, ghost t: Tree<int>)
        returns (ghost v: Tree<int>)
      requires c.Frame? && p == c.node && c.info == c.dir && At(c.up, Refill(c, t, 2 * c.dir))
      requires Recorded(c, tos + 1) && Recorded(c.up, tos) && path_info[tos] == c.dir
      requires tos < stack_n <= STACK_SIZE && GrownBelow(t, x, tos + 1, stack_n)
      requires Balanced(t) && CtxBalanced(c, Height(t) - 1)
      modifies this`root, Nodes(c, t)
      ensures At(c.up, v) && Balanced(v) && CtxBalanced(c.up, Height(v))
      ensures AllItems(c.up, v) == AllItems(c, t) && Nodes(c.up, v) == Nodes(c, t)
    {
      hide At, AllItems, Nodes, Balanced, CtxBalanced, Height;
      Grow(c, t);
      RefillKeeps(c, t, 2 * c.dir);
      ghost var u := Refill(c, t, 2 * c.dir);
      if tos != 0 { LastStep(c.up, u, tos); } else { NoFrame(c.up, 0); }
      var up := if tos != 0 then path_info[tos - 1] else 1;
      var q: Node<int> := stack[tos + 1];
      if path_info[tos] == path_info[tos + 1] {
        SingleBalances(u, c.dir);
        LiftSingle(p, q, path_info[tos], 0, 0, tos, up, c.up, u);
        v := Single(u, c.dir, 0, 0);
      } else {
        var r := if tos + 2 != stack_n then stack[tos + 2] else x;
        DoubleBalances(u, c.dir);
        Middle(r, c.dir, c.up, u);
        ghost var bp, bq := LowBalance(c.dir, r.info), HighBalance(c.dir, r.info);
        LiftDouble(p, q, r, path_info[tos], tos, up, c.up, u, bp, bq);
        v := Double(u, c.dir, bp, bq, 0);
      }
    }

    // ---------- Deletion ----------

    method Delete(key: Item) returns (found: Option<Item>)
      requires Valid()
      modifies this, stack, path_info, Refs(tree)
      ensures Valid() && Refs(tree) <= old(Refs(tree))
      ensures found == Lookup(old(Contents()), key.key)
      ensures Contents() == old(Contents()) - {key.key}
    {
      hide MapOf, Height, Balanced, CtxBalanced, At, Shaped, Inorder, Refs, CtxRefs, Before, After, AllItems, Nodes,
           Leads;
      assert allocated(Refs(tree));
      var p, tos; ghost var c, t;
      p, tos, c, t := Search(key);
      Pieces(c, t);
      if p == null {
        Missing(c, key);
        return None;
      }
      Found(c, t);
      found := Some(p.item);
      ghost var c', t';
      RightBelow(c, t);
      if p.left == null {
        c', t' := c, OnlyChild(t);
        Unlink(p, p.right, tos, c, t);
      } else if p.right == null {
        c', t' := c, OnlyChild(t);
        Unlink(p, p.left, tos, c, t);
      } else {
        tos, c', t' := ReplaceByMin(p, tos, c, t);
      }
      RebalanceDelete(tos, c', t');

    }

    /** Hangs the only subtree of `p`, which starts with `q`, in the place of `p`. */
    method Unlink(p: Node<int>, q: Node?<int>, tos: int, ghost c: Ctx<int>, ghost t: Tree<int>)
      requires Recorded(c, tos) && At(c, t) && t.Branch? && p == t.node
      requires (t.left.Leaf? || t.right.Leaf?) && q == Ptr(OnlyChild(t))
      requires Balanced(t) && CtxBalanced(c, Height(t))
      modifies this`root, Nodes(c, t)
      ensures Recorded(c, tos) && At(c, OnlyChild(t))
      ensures var t' := OnlyChild(t);
              Balanced(t') && CtxBalanced(c, Height(t') + 1) && AllItems(c, t') == Without(c, t) &&
              Nodes(c, t') <= Nodes(c, t)
    {
      hide Inorder, Before, After, Refs, CtxRefs, Attached, Balanced, CtxBalanced, Height, AllItems, Without;
      HalfLeaf(t);
      Spliced(c, t, root);
      Apart(c, t);
      AboveOnStack(stack, c, tos);
      root := Splice(root, if tos == 0 then null else stack[tos - 1], p, q, c, t);
    }

    /** Walks from `p`, the root of `t`, to the minimum of its right subtree. */
    method DescendMin(p: Node<int>, tos0: int, ghost c: Ctx<int>, ghost t: Tree<int>)
        returns (m: Node<int>, tos: int, ghost d: Ctx<int>, ghost s: Tree<int>)
      requires Recorded(c, tos0) && t.Branch? && p == t.node && t.right.Branch? && Holds(t)
      requires Depth(c) + Height(t) < STACK_SIZE
      modifies stack, path_info
      ensures MinBelow(t, d, s) && m == s.node && Recorded(Join(Down(c, t, 1), d), tos)
      ensures tos == tos0 + 1 + Depth(d)
    {
      hide Distinct, CtxDistinct, Refs, CtxRefs, Inorder;
      assert Holds(t.right);
      PathLength(c);
      assert allocated(Refs(t)) && allocated(Refs(t.right));
      Push(p, 1, tos0, c, t);
      ghost var f := Down(c, t, 1);
      d, s := Top, t.right;
      m, tos := p.right, tos0 + 1;
      while m.left != null
        invariant Plug(d, s) == t.right && Before(d) == [] && s.Branch? && m == s.node && Holds(t.right) && Holds(s)
        invariant Recorded(Join(f, d), tos) && tos == tos0 + 1 + Depth(d)
        decreases s
      {
        PathHeight(d, s);
        assert Holds(s.left);
        var next := m.left;
        Push(m, -1, tos, Join(f, d), s);
        d, s := Down(d, s, -1), s.left;
        PlugHolds(d, s);
        m, tos := next, tos + 1;
      }
    }

    /** `p` has two children: the minimum of its right subtree replaces it, also on the stack. */
    method ReplaceByMin(p: Node<int>, tos0: int, ghost c: Ctx<int>, ghost t: Tree<int>)
        returns (tos: int, ghost c': Ctx<int>, ghost t': Tree<int>)
      requires Recorded(c, tos0) && At(c, t) && t.Branch? && p == t.node && p.left != null && p.right != null
      requires Balanced(t) && CtxBalanced(c, Height(t)) && Depth(c) + Height(t) < STACK_SIZE
      modifies this`root, stack, path_info, Nodes(c, t)
      ensures Recorded(c', tos) && At(c', t') && Balanced(t') && CtxBalanced(c', Height(t') + 1)
      ensures AllItems(c', t') == Without(c, t) && Nodes(c', t') <= Nodes(c, t)
    {
      hide Distinct, CtxDistinct, Refs, CtxRefs, Inorder, Balanced, CtxBalanced, Height, Before, After, Holds, CtxHolds,
        Attached, AllItems, Without;
      assert allocated(CtxRefs(c)) && allocated(Refs(t));
      RightBelow(c, t);
      var m; ghost var d, s;
      m, tos, d, s := DescendMin(p, tos0, c, t);
      c', t' := Promoted(c, t, d, s), s.right;
      PromotedItems(c, t, d, s);
      PromotedNodes(c, t, d, s);
      PromotedBalanced(c, t, d, s);
      PathLength(c);
      PromotedPath(c, t, d, s);
      AboveOnStack(stack, c, tos0);
      root := PutMin(root, if tos0 == 0 then null else stack[tos0 - 1], p, m, stack[tos - 1], c, t, d, s);
      stack[tos0] := m;
    }

    lemma RightBelow(c: Ctx<int>, t: Tree<int>)
      requires At(c, t) && t.Branch?
      ensures Holds(t) && t.node.left == Ptr(t.left) && t.node.right == Ptr(t.right)
    {
    }

    /** Walks back up the stack after a node went, restoring the balances. */
    method RebalanceDelete(tos0: int, ghost c0: Ctx<int>, ghost t0: Tree<int>)
      requires Recorded(c0, tos0) && At(c0, t0) && Balanced(t0) && CtxBalanced(c0, Height(t0) + 1)
      modifies this`root, this`tree, this`n, Nodes(c0, t0)
      ensures Shaped() && n == old(n) - 1
      ensures Inorder(tree) == AllItems(c0, t0) && Refs(tree) == Nodes(c0, t0)
    {
      hide At, AllItems, Balanced, CtxBalanced, Height, Holds, CtxHolds, Distinct, CtxDistinct, Refs, CtxRefs;
      n := n - 1;
      var tos, stop := tos0, false;
      ghost var c, t := c0, t0;
      while tos != 0 && !stop
        invariant Recorded(c, tos) && At(c, t) && Balanced(t) && CtxBalanced(c, Height(t) + if stop then 0 else 1)
        invariant n == old(n) - 1
        invariant AllItems(c, t) == AllItems(c0, t0) && Nodes(c, t) == Nodes(c0, t0)
      {
        LastStep(c, t, tos);
        tos := tos - 1;
        if tos == 0 { NoFrame(c.up, 0); } else { PathLength(c.up); }
        var up := if tos != 0 then path_info[tos - 1] else 1;
        ghost var v;
        v, stop := StepDelete(stack[tos], path_info[tos], up, tos, c, t);
        c, t := c.up, v;
      }
      if tos == 0 { NoFrame(c, Height(t)); }
      Settle(c, t);
    }

    /** One turn of the loop: node `p` has lost a level on side `dir`. */
    method StepDelete(p: Node<int>, dir: Dir, up: Dir, tos: int, ghost c: Ctx<int>, ghost t: Tree<int>)
        returns (ghost v: Tree<int>, stop: bool)
      requires At(c, t) && c.Frame? && p == c.node && p.info == c.info && dir == c.dir
      requires Stacked(c.up, tos) && (c.up.Frame? ==> up == c.up.dir)
      requires Balanced(t) && CtxBalanced(c, Height(t) + 1)
      modifies this`root, Nodes(c, t)
      ensures At(c.up, v) && Balanced(v) && CtxBalanced(c.up, Height(v) + if stop then 0 else 1)
      ensures AllItems(c.up, v) == AllItems(c, t) && Nodes(c.up, v) == Nodes(c, t)
    {
      hide At, AllItems, Balanced, CtxBalanced, Height, Holds, CtxHolds, Distinct, CtxDistinct, Refs, CtxRefs;
      Shrink(c, t);
      Apart(c, t);
      var b := p.info - dir;
      RefillKeeps(c, t, b);
      if p.info == 0 {
        SetBalance(p, b, c, t);
        v, stop := Refill(c, t, b), true;
      } else {
        SetBalance(p, b, c, t);
        if p.info != 0 {
          v, stop := RotateShrunk(p, dir, up, tos, c, t);
        } else {
          v, stop := Refill(c, t, b), false;
        }
      }
    }

    /** Node `p` leans over by two after its subtree `t` has shrunk; `stop` tells that the rotation
        has given the subtree of `p` its old height back. */
    method RotateShrunk(p: Node<int>, dir: Dir, up: Dir, tos: int, ghost c: Ctx<int>, ghost t: Tree<int>)
        returns (ghost v: Tree<int>, stop: bool)
      requires c.Frame? && p == c.node && dir == c.dir && c.info == Opp(dir) && (c.up.Frame? ==> up == c.up.dir)
      requires At(c.up, Refill(c, t, 2 * Opp(dir))) && Stacked(c.up, tos)
      requires Balanced(t) && CtxBalanced(c, Height(t) + 1)
      modifies this`root, Nodes(c, t)
      ensures At(c.up, v) && Balanced(v) && CtxBalanced(c.up, Height(v) + if stop then 0 else 1)
      ensures AllItems(c.up, v) == AllItems(c, t) && Nodes(c.up, v) == Nodes(c, t)
    {
      hide At, AllItems, Balanced, CtxBalanced, Height, Holds, CtxHolds, Distinct, CtxDistinct, Refs, CtxRefs;
      ghost var u := Refill(c, t, 2 * Opp(dir));
      Sibling(c, t, u);
      Shrink(c, t);
      RefillKeeps(c, t, 2 * Opp(dir));
      var q: Node<int> := if dir == 1 then p.left else p.right;
      if dir != q.info {
        SingleBalances(u, Opp(dir));
        if q.info == 0 {
          var b := if p.info > 0 then 1 else -1;
          v, stop := Single(u, Opp(dir), b, -b), true;
          LiftSingle(p, q, Opp(dir), b, -b, tos, up, c.up, u);
        } else {
          v, stop := Single(u, Opp(dir), 0, 0), false;
          LiftSingle(p, q, Opp(dir), 0, 0, tos, up, c.up, u);
        }
      } else {
        DoubleBalances(u, Opp(dir));
        var r: Node<int> := if dir != 1 then q.left else q.right;
        Middle(r, Opp(dir), c.up, u);
        ghost var bp, bq := LowBalance(Opp(dir), r.info), HighBalance(Opp(dir), r.info);
        v, stop := Double(u, Opp(dir), bp, bq, 0), false;
        LiftDouble(p, q, r, Opp(dir), tos, up, c.up, u, bp, bq);
      }
    }

    /** The other child of the node at the end of the path, and the pointers leading there. */
    lemma Sibling(c: Ctx<int>, t: Tree<int>, u: Tree<int>)
      requires c.Frame? && u == Refill(c, t, 2 * Opp(c.dir)) && At(c.up, u)
      requires Balanced(t) && CtxBalanced(c, Height(t) + 1) && c.info == Opp(c.dir)
      ensures var s := c.sibling;
              s.Branch? && (if c.dir == 1 then c.node.left else c.node.right) == s.node &&
              c.node.info == 2 * Opp(c.dir) &&
              s.node.info == s.info && s.node.left == Ptr(s.left) && s.node.right == Ptr(s.right)
    {
      assert Holds(c.sibling);
    }

    method DeleteMin() returns (found: Option<Item>)
      requires Valid()
      modifies this, stack, Refs(tree)
      ensures Valid() && Refs(tree) <= old(Refs(tree))
      ensures found == Least(old(Contents()))
      ensures Contents() == AfterDeleteMin(old(Contents()))
    {
      hide MapOf, Least, AfterDeleteMin, Height, Balanced, CtxBalanced, Attached, Holds, Distinct, Inorder,
        Refs, CtxRefs, Before, After, AllItems, Without;
      LeastOfSorted(Inorder(tree));
      EmptyTree(tree);
      if root == null {
        EmptyRoot();
        return None;
      }
      assert allocated(Refs(tree));
      StackSuffices(tree);
      var p, tos; ghost var c, t;
      p, tos, c, t := LeftSpine(root, stack, tree);
      Pieces(c, t);
      FirstItem(c, t);
      found := Some(p.item);
      Spliced(c, t, root);
      HalfLeaf(t);
      AboveOnStack(stack, c, tos);
      Apart(c, t);
      root := UnlinkMin(root, if tos == 0 then null else stack[tos - 1], p, c, t);
      RebalanceDeleteMin(tos, c, t.right);
    }

    lemma EmptyRoot()
      requires Valid()
      ensures root == null <==> tree.Leaf?
    {
    }

    /** The rebalancing loop of delete-min: every step on the way down went left. */
    method RebalanceDeleteMin(tos0: int, ghost c0: Ctx<int>, ghost t0: Tree<int>)
      requires Stacked(c0, tos0) && At(c0, t0) && Balanced(t0) && CtxBalanced(c0, Height(t0) + 1) && Before(c0) == []
      modifies this`root, this`tree, this`n, Nodes(c0, t0)
      ensures Shaped() && n == old(n) - 1
      ensures Inorder(tree) == AllItems(c0, t0) && Refs(tree) == Nodes(c0, t0)
    {
      hide At, AllItems, Balanced, CtxBalanced, Height, Holds, CtxHolds, Distinct, CtxDistinct, Refs, CtxRefs, Before;
      n := n - 1;
      var tos, stop := tos0, false;
      ghost var c, t := c0, t0;
      while tos != 0 && !stop
        invariant Stacked(c, tos) && At(c, t) && Balanced(t) && CtxBalanced(c, Height(t) + if stop then 0 else 1)
        invariant n == old(n) - 1 && Before(c) == []
        invariant AllItems(c, t) == AllItems(c0, t0) && Nodes(c, t) == Nodes(c0, t0)
      {
        LastStep(c, t, tos);
        MinSteps(c);
        MinSteps(c.up);
        tos := tos - 1;
        ghost var v;
        v, stop := StepDelete(stack[tos], -1, -1, tos, c, t);
        c, t := c.up, v;
      }
      if tos == 0 { NoFrame(c, Height(t)); }
      Settle(c, t);
    }

    // ---------- Queries ----------

    method FindItem(key: Item) returns (found: Option<Item>)
      requires Valid()
      ensures Valid() && found == Lookup(old(Contents()), key.key)
    {
      assert allocated(Refs(tree));
      found := BinaryTree.Find(root, key, tree);
    }

    method FindMinItem() returns (found: Option<Item>)
      requires Valid()
      ensures Valid() && found == Least(old(Contents()))
    {
      assert allocated(Refs(tree));
      found := BinaryTree.FindMin(root, tree);
    }
  }
}
