/** Plain binary search trees (italos/lib/bst.c), which need neither balance nor stack. */
module SearchTree {
  import opened Items
  import opened Wrappers
  import opened BinaryTree

  class Bst {
    var root: Node?<()>
    var n: int
    ghost var tree: Tree<()>

    constructor ()
      ensures Valid() && Contents() == map[] && n == 0 && fresh(Refs(tree))
    {
      root, n, tree := null, 0, Leaf;
    }

    ghost predicate Valid()
      reads this, Refs(tree)
    {
      root == Ptr(tree) && Holds(tree) && Distinct(tree) && n == |Inorder(tree)| && Sorted(Inorder(tree))
    }

    ghost function Contents(): Contents
      requires Valid()
      reads this, Refs(tree)
    {
      MapOf(Inorder(tree))
    }

    /** Finds the node with the key of `k`, or where it is missing, and the node above that place. */
    method Search(k: Item) returns (prev_p: Node?<()>, p: Node?<()>, side: Dir, ghost c: Ctx<()>, ghost t: Tree<()>)
      requires Valid()
      ensures prev_p == Above(c) && p == Ptr(t) && Plug(c, t) == tree && (c.Frame? ==> side == c.dir)
      ensures Leads(c, k.key) && (t.Branch? ==> t.item.key == k.key) && Attached(c, t, root)
      ensures AllItems(c, t) == Inorder(tree) && Nodes(c, t) == Refs(tree)
    {
      hide MapOf, Distinct;
      assert allocated(Refs(tree));
      c, t := Top, tree;
      prev_p, p, side := null, root, 1;
      while p != null && Compar(k, p.item) != 0
        invariant prev_p == Above(c) && p == Ptr(t) && Plug(c, t) == tree && (c.Frame? ==> side == c.dir)
        invariant Leads(c, k.key) && Sorted(Inorder(t)) && Holds(t)
        decreases t
      {
        side := if Compar(k, p.item) < 0 then -1 else 1;
        prev_p, p := p, if side == -1 then p.left else p.right;
        StepLeads(c, t, k.key, side);
        assert Holds(Child(t, side));
        c, t := Down(c, t, side), Child(t, side);
      }
      TakeApart(c, t);
    }

    method Insert(item: Item) returns (existing: Option<Item>)
      requires Valid()
      modifies this, Refs(tree)
      ensures Valid() && fresh(Refs(tree) - old(Refs(tree)))
      ensures existing == Lookup(old(Contents()), item.key)
      ensures Contents() == AfterInsert(old(Contents()), item) && n <= old(n) + 1
    {
      hide MapOf, Distinct, Inorder, Refs, CtxRefs, Before, After, AllItems, Leads;
      assert allocated(Refs(tree));
      var prev_p, p, side; ghost var c, t;
      prev_p, p, side, c, t := Search(item);
      if p != null {
        Found(c, t);
        return Some(p.item);
      }
      Missing(c, item);
      var x := AttachNew(item, prev_p, side, c);
      NewLeaf(c, x, item);
      existing := None;
    }

    lemma NewLeaf(c: Ctx<()>, x: Node<()>, item: Item)
      ensures var leaf := Branch(Leaf, x, item, (), Leaf);
              AllItems(c, leaf) == Before(c) + [item] + After(c) && Nodes(c, leaf) == Nodes(c, Leaf) + {x}
    {
      assert Inorder(Branch(Leaf, x, item, (), Leaf)) == [item];
    }

    /** Links a new node in below `prev_p`; the tree is the old one with it plugged in. */
    method AttachNew(item: Item, prev_p: Node?<()>, side: Dir, ghost c: Ctx<()>) returns (x: Node<()>)
      requires Attached(c, Leaf, root) && prev_p == Above(c) && (c.Frame? ==> side == c.dir)
      modifies this, Nodes<()>(c, Leaf)
      ensures fresh(x) && n == old(n) + 1
      ensures var leaf := Branch(Leaf, x, item, (), Leaf);
              tree == Plug(c, leaf) && root == Ptr(tree) && Holds(tree) && Distinct(tree) &&
              Inorder(tree) == AllItems(c, leaf) && Refs(tree) == Nodes(c, leaf)
    {
      hide Inorder, Before, After, Plug;
      Apart<()>(c, Leaf);
      assert allocated(CtxRefs(c));
      assert CtxHolds(c, null, root);
      x := new Node(item, ());
      if prev_p == null {
        root := x;
      } else if side == 1 {
        prev_p.right := x;
      } else {
        prev_p.left := x;
      }
      n := n + 1;
      ghost var leaf := Branch(Leaf, x, item, (), Leaf);
      Assemble(c, leaf, root);
      tree := Plug(c, leaf);
    }

    method Delete(key: Item) returns (found: Option<Item>)
      requires Valid()
      modifies this, Refs(tree)
      ensures Valid() && Refs(tree) <= old(Refs(tree))
      ensures found == Lookup(old(Contents()), key.key)
      ensures Contents() == old(Contents()) - {key.key}
    {
      hide MapOf, Distinct, Inorder, Refs, CtxRefs, Before, After, AllItems, Leads, Without, CtxHolds, CtxDistinct,
           Plug;
      assert allocated(Refs(tree));
      var prev_p, p, side; ghost var c, t;
      prev_p, p, side, c, t := Search(key);
      if p == null {
        Missing(c, key);
        return None;
      }
      Found(c, t);
      found := Some(p.item);
      Spliced'(c, t);
      Apart(c, t);
      ghost var c', t' := c, OnlyChild(t);
      if p.left == null {
        root := Splice(root, prev_p, p, p.right, c, t);
      } else if p.right == null {
        root := Splice(root, prev_p, p, p.left, c, t);
      } else {
        var m, prev_m; ghost var d, s;
        m, prev_m, d, s := MinAbove(p, t);
        PromotedItems(c, t, d, s);
        PromotedNodes(c, t, d, s);
        root := PutMin(root, prev_p, p, m, prev_m, c, t, d, s);
        c', t' := Promoted(c, t, d, s), s.right;
      }
      n := n - 1;
      Assemble(c', t', root);
      tree := Plug(c', t');
    }

    lemma Spliced'(c: Ctx<()>, t: Tree<()>)
      requires Attached(c, t, root) && t.Branch?
      ensures Holds(t) && t.node.left == Ptr(t.left) && t.node.right == Ptr(t.right)
      ensures t.left.Leaf? || t.right.Leaf? ==>
                AllItems(c, OnlyChild(t)) == Without(c, t) && Nodes(c, OnlyChild(t)) <= Nodes(c, t)
    {
      if t.left.Leaf? || t.right.Leaf? { Spliced(c, t, root); }
    }

    /** The minimum of the right subtree of `p`, and the node above it. */
    method MinAbove(p: Node<()>, ghost t: Tree<()>)
        returns (m: Node<()>, prev_m: Node<()>, ghost d: Ctx<()>, ghost s: Tree<()>)
      requires t.Branch? && p == t.node && t.right.Branch? && Holds(t)
      ensures MinBelow(t, d, s) && m == s.node && prev_m == (if d.Top? then p else d.node)
    {
      assert Holds(t.right);
      d, s := Top, t.right;
      prev_m, m := p, p.right;
      while m.left != null
        invariant Plug(d, s) == t.right && Before(d) == [] && s.Branch? && m == s.node && Holds(s)
        invariant prev_m == (if d.Top? then p else d.node)
        decreases s
      {
        assert Holds(s.left);
        prev_m, m := m, m.left;
        d, s := Down(d, s, -1), s.left;
      }
    }

    method DeleteMin() returns (found: Option<Item>)
      requires Valid()
      modifies this, Refs(tree)
      ensures Valid() && Refs(tree) <= old(Refs(tree))
      ensures found == Least(old(Contents()))
      ensures Contents() == AfterDeleteMin(old(Contents()))
    {
      hide MapOf, Least, AfterDeleteMin, Inorder, After, CtxRefs, Refs, CtxHolds, AllItems, Without, Distinct;
      LeastOfSorted(Inorder(tree));
      EmptyTree(tree);
      if root == null {
        return None;
      }
      assert allocated(Refs(tree));
      ghost var c, t := Top, tree;
      var prev_p, p: Node<()> := null, root;
      while p.left != null
        invariant Plug(c, t) == tree && t.Branch? && p == t.node && prev_p == Above(c) && Holds(t) && Before(c) == []
        decreases t
      {
        assert Holds(t.left);
        prev_p, p := p, p.left;
        c, t := Down(c, t, -1), t.left;
      }
      TakeApart(c, t);
      FirstItem(c, t);
      Spliced(c, t, root);
      Apart(c, t);
      found := Some(p.item);
      root := UnlinkMin(root, prev_p, p, c, t);
      n := n - 1;
      Assemble(c, t.right, root);
      tree := Plug(c, t.right);
    }

    method FindItem(key: Item) returns (found: Option<Item>)
      requires Valid()
      ensures Valid() && found == Lookup(old(Contents()), key.key)
    {
      assert allocated(Refs(tree));
      found := BinaryTree.Find(root, key, tree);
    }

    method FindMinItem() returns (found: Option<Item>)
      requires Valid()
      ensures Valid() && found == Least(old(Contents()))
    {
      assert allocated(Refs(tree));
      found := BinaryTree.FindMin(root, tree);
    }
  }
}
