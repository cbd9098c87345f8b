/** Heap nodes of the binary search trees, with a ghost value for the shape they form.

    `Tree` is the shape of a subtree and `Ctx` the path from the root down to it: the frames the
    source keeps on its explicit stack, innermost first.  `Holds` and `CtxHolds` say that the heap
    has that shape. */
module BinaryTree {
  import opened Items
  import opened Sequences
  import opened Wrappers

  /** `info` is the balance of an AVL node, the colour of a red-black node, nothing in a plain tree. */
  class Node<A> {
    var item: Item
    var left: Node?<A>
    var right: Node?<A>
    var info: A

    constructor (item: Item, info: A)
      ensures left == null && right == null && this.item == item && this.info == info
    {
      left, right := null, null;
      this.item, this.info := item, info;
    }
  }

  datatype Tree<A> = Leaf | Branch(left: Tree<A>, node: Node<A>, item: Item, info: A, right: Tree<A>)

  /** Direction of a step down the tree, as recorded in `path_info`. */
  type Dir = d: int | d == -1 || d == 1 witness 1

  function Opp(d: Dir): Dir {
    if d == 1 then -1 else 1
  }

  datatype Ctx<A> =
    | Top
    | Frame(up: Ctx<A>, dir: Dir, node: Node<A>, item: Item, info: A, sibling: Tree<A>)

  // ---------- Shapes ----------

  ghost function Ptr<A>(t: Tree<A>): Node?<A> {
    if t.Leaf? then null else t.node
  }

  ghost function Inorder<A>(t: Tree<A>): seq<Item> {
    if t.Leaf? then [] else Inorder(t.left) + [t.item] + Inorder(t.right)
  }

  ghost function Refs<A>(t: Tree<A>): set<Node<A>> {
    if t.Leaf? then {} else Refs(t.left) + {t.node} + Refs(t.right)
  }

  /** No node occurs twice. */
  ghost predicate Distinct<A>(t: Tree<A>) {
    t.Leaf? ||
    (Distinct(t.left) && Distinct(t.right) &&
     t.node !in Refs(t.left) && t.node !in Refs(t.right) && Refs(t.left) !! Refs(t.right))
  }

  ghost function Height<A>(t: Tree<A>): nat {
    if t.Leaf? then 0 else 1 + Max(Height(t.left), Height(t.right))
  }

  function Max(a: nat, b: nat): nat {
    if a < b then b else a
  }

  /** The heap has shape `t`. */
  ghost predicate Holds<A>(t: Tree<A>)
    reads Refs(t)
  {
    t.Leaf? ||
    (t.node.item == t.item && t.node.info == t.info &&
     t.node.left == Ptr(t.left) && t.node.right == Ptr(t.right) &&
     Holds(t.left) && Holds(t.right))
  }

  // ---------- Paths ----------

  ghost function Fill<A>(dir: Dir, node: Node<A>, item: Item, info: A, sibling: Tree<A>, t: Tree<A>): Tree<A> {
    if dir == 1 then Branch(sibling, node, item, info, t) else Branch(t, node, item, info, sibling)
  }

  /** The whole tree when the path ends in subtree `t`. */
  ghost function Plug<A>(c: Ctx<A>, t: Tree<A>): Tree<A> {
    if c.Top? then t else Plug(c.up, Fill(c.dir, c.node, c.item, c.info, c.sibling, t))
  }

  /** The items before, and after, those of the subtree the path ends in. */
  ghost function Before<A>(c: Ctx<A>): seq<Item> {
    if c.Top? then []
    else if c.dir == 1 then Before(c.up) + (Inorder(c.sibling) + [c.item])
    else Before(c.up)
  }

  ghost function After<A>(c: Ctx<A>): seq<Item> {
    if c.Top? then []
    else if c.dir == 1 then After(c.up)
    else [c.item] + Inorder(c.sibling) + After(c.up)
  }

  ghost function CtxRefs<A>(c: Ctx<A>): set<Node<A>> {
    if c.Top? then {} else {c.node} + Refs(c.sibling) + CtxRefs(c.up)
  }

  ghost predicate CtxDistinct<A>(c: Ctx<A>) {
    c.Top? ||
    (Distinct(c.sibling) && c.node !in Refs(c.sibling) && c.node !in CtxRefs(c.up) &&
     Refs(c.sibling) !! CtxRefs(c.up) && CtxDistinct(c.up))
  }

  /** The nodes of the path from the root on, and the steps taken from them. */
  ghost function Path<A>(c: Ctx<A>): seq<Node?<A>> {
    if c.Top? then [] else Path(c.up) + [c.node]
  }

  ghost function Steps<A>(c: Ctx<A>): seq<int> {
    if c.Top? then [] else Steps(c.up) + [c.dir]
  }

  ghost function Depth<A>(c: Ctx<A>): nat {
    if c.Top? then 0 else Depth(c.up) + 1
  }

  /** The heap has the shape of the path, which leads from `root` to `hole`. */
  ghost predicate CtxHolds<A>(c: Ctx<A>, hole: Node?<A>, root: Node?<A>)
    reads CtxRefs(c)
  {
    if c.Top? then root == hole
    else
      c.node.item == c.item && c.node.info == c.info && Holds(c.sibling) &&
      (if c.dir == 1 then c.node.left == Ptr(c.sibling) && c.node.right == hole
       else c.node.left == hole && c.node.right == Ptr(c.sibling)) &&
      CtxHolds(c.up, c.node, root)
  }

  /** The path `c` followed by the path `d`. */
  ghost function Join<A>(c: Ctx<A>, d: Ctx<A>): Ctx<A> {
    if d.Top? then c else d.(up := Join(c, d.up))
  }

  // ---------- Facts about plugging ----------

  lemma {:induction false} PlugInorder<A>(c: Ctx<A>, t: Tree<A>)
    ensures Inorder(Plug(c, t)) == Before(c) + Inorder(t) + After(c)
    decreases c
  {
    if c.Frame? {
      PlugInorder(c.up, Fill(c.dir, c.node, c.item, c.info, c.sibling, t));
    }
  }

  lemma {:induction false} PlugRefs<A>(c: Ctx<A>, t: Tree<A>)
    ensures Refs(Plug(c, t)) == CtxRefs(c) + Refs(t)
    decreases c
  {
    if c.Frame? {
      PlugRefs(c.up, Fill(c.dir, c.node, c.item, c.info, c.sibling, t));
    }
  }

  lemma {:induction false} PlugDistinct<A>(c: Ctx<A>, t: Tree<A>)
    ensures Distinct(Plug(c, t)) <==> CtxDistinct(c) && Distinct(t) && CtxRefs(c) !! Refs(t)
    decreases c
  {
    if c.Frame? {
      PlugDistinct(c.up, Fill(c.dir, c.node, c.item, c.info, c.sibling, t));
    }
  }

  lemma {:induction false} PlugHolds<A>(c: Ctx<A>, t: Tree<A>)
    ensures Holds(Plug(c, t)) <==> CtxHolds(c, Ptr(t), Ptr(Plug(c, t))) && Holds(t)
    decreases c
  {
    if c.Frame? {
      PlugHolds(c.up, Fill(c.dir, c.node, c.item, c.info, c.sibling, t));
    }
  }

  lemma {:induction false} PlugRoot<A>(c: Ctx<A>, t: Tree<A>, root: Node?<A>)
    requires CtxHolds(c, Ptr(t), root)
    ensures Ptr(Plug(c, t)) == root
    decreases c
  {
    if c.Frame? {
      PlugRoot(c.up, Fill(c.dir, c.node, c.item, c.info, c.sibling, t), root);
    }
  }

  lemma {:induction false} PathLength<A>(c: Ctx<A>)
    ensures |Path(c)| == |Steps(c)| == Depth(c)
  {
    if c.Frame? { PathLength(c.up); }
  }

  lemma {:induction false} PlugJoin<A>(c: Ctx<A>, d: Ctx<A>, t: Tree<A>)
    ensures Plug(Join(c, d), t) == Plug(c, Plug(d, t))
    decreases d
  {
    if d.Frame? {
      PlugJoin(c, d.up, Fill(d.dir, d.node, d.item, d.info, d.sibling, t));
    }
  }

  lemma {:induction false} JoinRefs<A>(c: Ctx<A>, d: Ctx<A>)
    ensures CtxRefs(Join(c, d)) == CtxRefs(c) + CtxRefs(d)
    decreases d
  {
    if d.Frame? { JoinRefs(c, d.up); }
  }

  lemma {:induction false} JoinHolds<A>(c: Ctx<A>, d: Ctx<A>, hole: Node?<A>, mid: Node?<A>, root: Node?<A>)
    requires CtxHolds(d, hole, mid) && CtxHolds(c, mid, root)
    ensures CtxHolds(Join(c, d), hole, root)
    decreases d
  {
    if d.Frame? { JoinHolds(c, d.up, d.node, mid, root); }
  }

  lemma {:induction false} JoinDistinct<A>(c: Ctx<A>, d: Ctx<A>)
    requires CtxDistinct(c) && CtxDistinct(d) && CtxRefs(c) !! CtxRefs(d)
    ensures CtxDistinct(Join(c, d))
    decreases d
  {
    if d.Frame? {
      JoinDistinct(c, d.up);
      JoinRefs(c, d.up);
    }
  }

  lemma {:induction false} JoinPath<A>(c: Ctx<A>, d: Ctx<A>)
    ensures Path(Join(c, d)) == Path(c) + Path(d)
    ensures Steps(Join(c, d)) == Steps(c) + Steps(d)
    decreases d
  {
    if d.Frame? { JoinPath(c, d.up); }
  }

  lemma {:induction false} JoinOrder<A>(c: Ctx<A>, d: Ctx<A>)
    ensures Before(Join(c, d)) == Before(c) + Before(d)
    ensures After(Join(c, d)) == After(d) + After(c)
    decreases d
  {
    if d.Frame? { JoinOrder(c, d.up); }
  }

  /** All items of a tree that consists of the path `c` and the subtree `t` at its end. */
  ghost function AllItems<A>(c: Ctx<A>, t: Tree<A>): seq<Item> {
    Before(c) + Inorder(t) + After(c)
  }

  ghost function Nodes<A>(c: Ctx<A>, t: Tree<A>): set<Node<A>> {
    CtxRefs(c) + Refs(t)
  }

  /** The last frame of the path, filled with `t` and given a new `info`. */
  ghost function Refill<A>(c: Ctx<A>, t: Tree<A>, info: A): Tree<A>
    requires c.Frame?
  {
    Fill(c.dir, c.node, c.item, info, c.sibling, t)
  }

  lemma RefillKeeps<A>(c: Ctx<A>, t: Tree<A>, info: A)
    requires c.Frame?
    ensures AllItems(c.up, Refill(c, t, info)) == AllItems(c, t)
    ensures Nodes(c.up, Refill(c, t, info)) == Nodes(c, t)
  {
  }

  // ---------- Searching ----------

  /** All items left of the path sort before key `k` and all items right of it after `k`. */
  ghost predicate Leads<A>(c: Ctx<A>, k: int) {
    AllBelow(Before(c), k) && AllAbove(After(c), k)
  }

  ghost function Child<A>(t: Tree<A>, dir: Dir): Tree<A>
    requires t.Branch?
  {
    if dir == 1 then t.right else t.left
  }

  /** The path `c` to `t`, continued into the child of `t` on side `dir`. */
  ghost function Down<A>(c: Ctx<A>, t: Tree<A>, dir: Dir): Ctx<A>
    requires t.Branch?
  {
    Frame(c, dir, t.node, t.item, t.info, if dir == 1 then t.left else t.right)
  }

  /** One step of the search keeps the key between the items passed. */
  lemma StepLeads<A>(c: Ctx<A>, t: Tree<A>, k: int, dir: Dir)
    requires t.Branch? && Leads(c, k)
    requires Sorted(Inorder(t))
    requires if dir == 1 then t.item.key < k else k < t.item.key
    ensures Leads(Down(c, t, dir), k) && Sorted(Inorder(Child(t, dir)))
  {
    SortedAround(Inorder(t.left), t.item, Inorder(t.right));
  }

  /** A subtree is no higher than the tree less the length of the path to it. */
  lemma {:induction false} PathHeight<A>(c: Ctx<A>, t: Tree<A>)
    ensures Depth(c) + Height(t) <= Height(Plug(c, t))
    decreases c
  {
    if c.Frame? {
      PathHeight(c.up, Fill(c.dir, c.node, c.item, c.info, c.sibling, t));
    }
  }

  /** A search that fell off the tree: the key is missing, and the place is the right one for it. */
  lemma Missing<A>(c: Ctx<A>, x: Item)
    requires Sorted(AllItems(c, Leaf)) && Leads(c, x.key)
    ensures x.key !in MapOf(AllItems(c, Leaf))
    ensures |Before(c) + [x] + After(c)| == |AllItems(c, Leaf)| + 1
    ensures Sorted(Before(c) + [x] + After(c))
    ensures MapOf(Before(c) + [x] + After(c)) == MapOf(AllItems(c, Leaf))[x.key := x]
  {
    var b, a := Before(c), After(c);
    assert AllItems(c, Leaf) == b + a;
    hide AllItems, MapOf, Before, After;
    AbsentBetween(b, x.key, a);
    SortedParts(b, a);
    hide Sorted;
    SortedAround(b, x, a);
    MapAround(b, x, a);
  }

  /** The items left when the root item of the subtree `t` at the end of the path goes. */
  ghost function Without<A>(c: Ctx<A>, t: Tree<A>): seq<Item>
    requires t.Branch?
  {
    Before(c) + Inorder(t.left) + (Inorder(t.right) + After(c))
  }

  /** A search that stopped at a node: its item is the one bound to the key. */
  lemma Found<A>(c: Ctx<A>, t: Tree<A>)
    requires Sorted(AllItems(c, t)) && t.Branch?
    ensures var m := MapOf(AllItems(c, t)); t.item.key in m && m[t.item.key] == t.item
    ensures |AllItems(c, t)| == |Without(c, t)| + 1 && Sorted(Without(c, t))
    ensures MapOf(Without(c, t)) == MapOf(AllItems(c, t)) - {t.item.key}
  {
    hide MapOf;
    var b, a := Before(c) + Inorder(t.left), Inorder(t.right) + After(c);
    assert AllItems(c, t) == b + [t.item] + a;
    MapAround(b, t.item, a);
    PutAndDrop(MapOf(b + a), t.item);
  }

  /** A path that went left all the way ends at the first item. */
  lemma FirstItem<A>(c: Ctx<A>, t: Tree<A>)
    requires Before(c) == [] && t.Branch? && t.left.Leaf?
    ensures AllItems(c, t) != [] && AllItems(c, t)[0] == t.item && Without(c, t) == AllItems(c, t)[1..]
  {
    assert Inorder(t) == [t.item] + Inorder(t.right);
  }

  lemma EmptyTree<A>(t: Tree<A>)
    ensures Inorder(t) == [] <==> t.Leaf?
  {
  }

  /** The find functions of all three binary trees. */
  method Find<A>(root: Node?<A>, key: Item, ghost tree: Tree<A>) returns (found: Option<Item>)
    requires root == Ptr(tree) && Holds(tree) && Sorted(Inorder(tree))
    ensures found == Lookup(MapOf(Inorder(tree)), key.key)
  {
    hide MapOf;
    ghost var c, t := Top, tree;
    var p := root;
    while p != null
      invariant Plug(c, t) == tree && p == Ptr(t) && Holds(t)
      invariant Leads(c, key.key) && Sorted(Inorder(t))
      decreases t
    {
      var dir: Dir;
      if Compar(key, p.item) < 0 {
        p, dir := p.left, -1;
      } else if Compar(key, p.item) > 0 {
        p, dir := p.right, 1;
      } else {
        PlugInorder(c, t);
        Found(c, t);
        return Some(p.item);
      }
      StepLeads(c, t, key.key, dir);
      assert Holds(Child(t, dir));
      c, t := Down(c, t, dir), Child(t, dir);
    }
    PlugInorder(c, t);
    Missing(c, key);
    found := None;
  }

  /** The find-minimum functions of all three binary trees. */
  method FindMin<A>(root: Node?<A>, ghost tree: Tree<A>) returns (found: Option<Item>)
    requires root == Ptr(tree) && Holds(tree) && Sorted(Inorder(tree))
    ensures found == Least(MapOf(Inorder(tree)))
  {
    hide MapOf, Least, IsLeast, Inorder, After, Distinct, Sorted, AfterDeleteMin;
    LeastOfSorted(Inorder(tree));
    if root == null {
      EmptyTree(tree);
      return None;
    }
    ghost var c, t := Top, tree;
    var p: Node<A> := root;
    while p.left != null
      invariant Plug(c, t) == tree && t.Branch? && p == t.node && Holds(t) && Before(c) == []
      decreases t
    {
      p := p.left;
      assert Holds(t.left);
      c, t := Down(c, t, -1), t.left;
    }
    PlugInorder(c, t);
    FirstItem(c, t);
    EmptyTree(tree);
    found := Some(p.item);
  }

  // ---------- Rotations ----------

  /** There is a child on side `heavy`. */
  ghost predicate Leaning<A>(u: Tree<A>, heavy: Dir) {
    u.Branch? && (if heavy == 1 then u.right else u.left).Branch?
  }

  /** ... and that child has a child on the other side. */
  ghost predicate Bent<A>(u: Tree<A>, heavy: Dir) {
    u.Branch? &&
    if heavy == 1 then u.right.Branch? && u.right.left.Branch? else u.left.Branch? && u.left.right.Branch?
  }

  /** `u` with the child on its heavy side lifted over the root, `bp` below and `bq` above. */
  ghost function Single<A>(u: Tree<A>, heavy: Dir, bp: A, bq: A): Tree<A>
    requires Leaning(u, heavy)
  {
    if heavy == 1 then
      var q := u.right;
      Branch(Branch(u.left, u.node, u.item, bp, q.left), q.node, q.item, bq, q.right)
    else
      var q := u.left;
      Branch(q.left, q.node, q.item, bq, Branch(q.right, u.node, u.item, bp, u.right))
  }

  /** `u` with the inner grandchild on its heavy side lifted over both. */
  ghost function Double<A>(u: Tree<A>, heavy: Dir, bp: A, bq: A, br: A): Tree<A>
    requires Bent(u, heavy)
  {
    if heavy == 1 then
      var q, r := u.right, u.right.left;
      Branch(Branch(u.left, u.node, u.item, bp, r.left), r.node, r.item, br,
             Branch(r.right, q.node, q.item, bq, q.right))
    else
      var q, r := u.left, u.left.right;
      Branch(Branch(q.left, q.node, q.item, bq, r.left), r.node, r.item, br,
             Branch(r.right, u.node, u.item, bp, u.right))
  }

  /** Rotations move neither items nor nodes out of the subtree. */
  lemma SingleKeeps<A>(u: Tree<A>, heavy: Dir, bp: A, bq: A)
    requires Leaning(u, heavy) && Distinct(u)
    ensures var v := Single(u, heavy, bp, bq); Inorder(v) == Inorder(u) && Refs(v) == Refs(u) && Distinct(v)
  {
  }

  lemma DoubleKeeps<A>(u: Tree<A>, heavy: Dir, bp: A, bq: A, br: A)
    requires Bent(u, heavy) && Distinct(u)
    ensures var v := Double(u, heavy, bp, bq, br);
            Inorder(v) == Inorder(u) && Refs(v) == Refs(u) && Distinct(v) &&
            v.Branch? && v.node == Child(Child(u, heavy), Opp(heavy)).node
  {
    // A double rotation is one about the child followed by one about the root.
    if heavy == 1 {
      SingleKeeps(u.right, -1, bq, br);
      SingleKeeps(u.(right := Single(u.right, -1, bq, br)), 1, bp, br);
    } else {
      SingleKeeps(u.left, 1, bq, br);
      SingleKeeps(u.(left := Single(u.left, 1, bq, br)), -1, bp, br);
    }
  }

  lemma BeforeSingle<A>(p: Node<A>, q: Node<A>, heavy: Dir, u: Tree<A>)
    requires Leaning(u, heavy) && Holds(u) && Distinct(u) && p == u.node && q == Child(u, heavy).node
    ensures p != q && p in Refs(u) && q in Refs(u)
    ensures var t := Child(u, heavy);
            var a, w := Child(u, Opp(heavy)), {p, q};
            p.item == u.item && q.item == t.item && p.info == u.info && q.info == t.info &&
            Holds(a) && Holds(t.left) && Holds(t.right) &&
            w !! Refs(a) && w !! Refs(t.left) && w !! Refs(t.right) &&
            q.left == Ptr(t.left) && q.right == Ptr(t.right) &&
            (if heavy == 1 then p.left == Ptr(a) && p.right == q else p.right == Ptr(a) && p.left == q)
  {
    hide Inorder;
    assert Holds(Child(u, heavy)) && Distinct(Child(u, heavy));
  }

  lemma SingleHolds<A>(p: Node<A>, q: Node<A>, heavy: Dir, u: Tree<A>)
    requires Leaning(u, heavy) && p == u.node && q == Child(u, heavy).node
    requires var t := Child(u, heavy);
             var a := Child(u, Opp(heavy));
             p.item == u.item && q.item == t.item && Holds(a) && Holds(t.left) && Holds(t.right) &&
             (if heavy == 1 then p.left == Ptr(a) && p.right == Ptr(t.left) && q.left == p && q.right == Ptr(t.right)
              else p.right == Ptr(a) && p.left == Ptr(t.right) && q.right == p && q.left == Ptr(t.left))
    ensures Holds(Single(u, heavy, p.info, q.info))
  {
    var v := Single(u, heavy, p.info, q.info);
    assert Holds(v.left) && Holds(v.right);
  }

  lemma BeforeDouble<A>(p: Node<A>, q: Node<A>, r: Node<A>, heavy: Dir, u: Tree<A>)
    requires Bent(u, heavy) && Holds(u) && Distinct(u)
    requires p == u.node && q == Child(u, heavy).node && r == Child(Child(u, heavy), Opp(heavy)).node
    ensures p != q && q != r && p != r
    ensures var t, s := Child(u, heavy), Child(Child(u, heavy), Opp(heavy));
            var a, d, w := Child(u, Opp(heavy)), Child(t, heavy), {p, q, r};
            p.item == u.item && q.item == t.item && r.item == s.item &&
            p.info == u.info && q.info == t.info && r.info == s.info &&
            Holds(a) && Holds(d) && Holds(s.left) && Holds(s.right) &&
            w !! Refs(a) && w !! Refs(d) && w !! Refs(s.left) && w !! Refs(s.right) &&
            r.left == Ptr(s.left) && r.right == Ptr(s.right) &&
            (if heavy == 1 then p.left == Ptr(a) && p.right == q && q.left == r && q.right == Ptr(d)
             else p.right == Ptr(a) && p.left == q && q.right == r && q.left == Ptr(d))
  {
    var t, s := Child(u, heavy), Child(Child(u, heavy), Opp(heavy));
    hide Inorder;
    assert Holds(t) && Distinct(t);
    assert Holds(s) && Distinct(s);
  }

  lemma DoubleHolds<A>(p: Node<A>, q: Node<A>, r: Node<A>, heavy: Dir, u: Tree<A>)
    requires Bent(u, heavy)
    requires p == u.node && q == Child(u, heavy).node && r == Child(Child(u, heavy), Opp(heavy)).node
    requires var t, s := Child(u, heavy), Child(Child(u, heavy), Opp(heavy));
             var a, d := Child(u, Opp(heavy)), Child(t, heavy);
             p.item == u.item && q.item == t.item && r.item == s.item &&
             Holds(a) && Holds(d) && Holds(s.left) && Holds(s.right) &&
             (if heavy == 1 then
                p.left == Ptr(a) && p.right == Ptr(s.left) && q.left == Ptr(s.right) && q.right == Ptr(d) &&
                r.left == p && r.right == q
              else
                p.right == Ptr(a) && p.left == Ptr(s.right) && q.right == Ptr(s.left) && q.left == Ptr(d) &&
                r.right == p && r.left == q)
    ensures Holds(Double(u, heavy, p.info, q.info, r.info))
  {
    var v := Double(u, heavy, p.info, q.info, r.info);
    assert Holds(v.left) && Holds(v.right);
  }

  lemma DoubleNodes<A>(p: Node<A>, q: Node<A>, r: Node<A>, heavy: Dir, u: Tree<A>)
    requires Bent(u, heavy) && Holds(u)
    requires p == u.node && q == Child(u, heavy).node && r == Child(Child(u, heavy), Opp(heavy)).node
    ensures p in Refs(u) && q in Refs(u) && r in Refs(u) && r.info == Child(Child(u, heavy), Opp(heavy)).info
  {
    var t := Child(u, heavy);
    assert Holds(t) && q in Refs(t) && r in Refs(t);
    assert Holds(Child(t, Opp(heavy)));
  }

  /** The nodes close to the end of the path are where one expects them. */
  lemma Apart<A>(c: Ctx<A>, u: Tree<A>)
    ensures c.Frame? ==> c.node in CtxRefs(c)
    ensures u.Branch? ==>
              u.node in Refs(u) && (u.left.Branch? ==> u.left.node in Refs(u)) &&
              (u.right.Branch? ==> u.right.node in Refs(u))
  {
  }

  // ---------- A tree seen from a place in it ----------

  /** In the tree at `root`, the path `c` leads to the subtree `t`. */
  ghost predicate Attached<A>(c: Ctx<A>, t: Tree<A>, root: Node?<A>)
    reads CtxRefs(c), Refs(t)
  {
    CtxHolds(c, Ptr(t), root) && Holds(t) && CtxDistinct(c) && Distinct(t) && CtxRefs(c) !! Refs(t)
  }

  /** The first `tos` entries of the stack are the nodes of the path `c`. */
  ghost predicate OnStack<A>(stack: array<Node?<A>>, c: Ctx<A>, tos: int)
    reads stack
  {
    stack.Length == STACK_SIZE && 0 <= tos <= STACK_SIZE && stack[..tos] == Path(c)
  }

  lemma Assemble<A>(c: Ctx<A>, t: Tree<A>, root: Node?<A>)
    requires Attached(c, t, root)
    ensures var u := Plug(c, t);
            Ptr(u) == root && Holds(u) && Distinct(u) && Inorder(u) == AllItems(c, t) && Refs(u) == Nodes(c, t)
  {
    PlugInorder(c, t);
    PlugRefs(c, t);
    PlugDistinct(c, t);
    PlugRoot(c, t, root);
    PlugHolds(c, t);
  }

  lemma TakeApart<A>(c: Ctx<A>, t: Tree<A>)
    requires Holds(Plug(c, t)) && Distinct(Plug(c, t))
    ensures Attached(c, t, Ptr(Plug(c, t)))
    ensures Inorder(Plug(c, t)) == AllItems(c, t) && Refs(Plug(c, t)) == Nodes(c, t)
  {
    PlugHolds(c, t);
    PlugDistinct(c, t);
    PlugInorder(c, t);
    PlugRefs(c, t);
  }

  /** The node whose child pointer leads to the end of the path; none if that pointer is the root. */
  ghost function Above<A>(c: Ctx<A>): Node?<A> {
    if c.Top? then null else c.node
  }

  lemma AboveOnStack<A>(stack: array<Node?<A>>, c: Ctx<A>, tos: int)
    requires OnStack(stack, c, tos)
    ensures (tos == 0 <==> c.Top?) && (tos != 0 ==> stack[tos - 1] == Above(c))
  {
    PathLength(c);
  }

  /** The child pointer of the parent of `p`, found by comparison, changes from `p` to `q`. */
  method ReplaceChild<A>(root: Node?<A>, parent: Node?<A>, p: Node<A>, q: Node?<A>, ghost c: Ctx<A>)
      returns (root': Node?<A>)
    requires parent == Above(c) && CtxHolds(c, p, root) && CtxDistinct(c) && p !in CtxRefs(c)
    modifies if c.Top? then {} else {c.node}
    ensures CtxHolds(c, q, root')
  {
    root' := root;
    if parent == null {
      root' := q;
    } else if p == parent.left {
      parent.left := q;
    } else {
      parent.right := q;
    }
  }

  /** The node at the end of the path gets `b` for its balance or colour and joins the subtree below it. */
  method SetInfo<A>(p: Node<A>, b: A, ghost c: Ctx<A>, ghost t: Tree<A>, ghost root: Node?<A>)
    requires Attached(c, t, root) && c.Frame? && p == c.node
    modifies p`info
    ensures Attached(c.up, Refill(c, t, b), root) && p.info == b
  {
    p.info := b;
  }

  /** The one subtree of `t`, if `t` has at most one. */
  ghost function OnlyChild<A>(t: Tree<A>): Tree<A>
    requires t.Branch?
  {
    if t.left.Leaf? then t.right else t.left
  }

  lemma Spliced<A>(c: Ctx<A>, t: Tree<A>, root: Node?<A>)
    requires Attached(c, t, root) && t.Branch? && (t.left.Leaf? || t.right.Leaf?)
    ensures var t' := OnlyChild(t);
            AllItems(c, t') == Without(c, t) && Nodes(c, t') <= Nodes(c, t) &&
            Holds(t') && Distinct(t') && CtxDistinct(c) && CtxRefs(c) !! Refs(t') && Refs(t') <= Refs(t)
  {
  }

  /** Hangs the only subtree of `p`, which starts with `q`, in the place of `p`. */
  method Splice<A>(root: Node?<A>, parent: Node?<A>, p: Node<A>, q: Node?<A>,
                   ghost c: Ctx<A>, ghost t: Tree<A>) returns (root': Node?<A>)
    requires parent == Above(c) && Attached(c, t, root) && t.Branch? && p == t.node
    requires (t.left.Leaf? || t.right.Leaf?) && q == Ptr(OnlyChild(t))
    modifies if c.Top? then {} else {c.node}
    ensures Attached(c, OnlyChild(t), root')
  {
    hide Inorder, Before, After, Refs, CtxRefs, Holds, CtxHolds, Distinct, CtxDistinct;
    Spliced(c, t, root);
    Apart(c, t);
    assert allocated(Refs(OnlyChild(t)));
    root' := ReplaceChild(root, parent, p, q, c);
    assert Holds(OnlyChild(t));
  }

  /** Right child of the minimum `p` replaces `p`. */
  method UnlinkMin<A>(root: Node?<A>, parent: Node?<A>, p: Node<A>, ghost c: Ctx<A>, ghost t: Tree<A>)
      returns (root': Node?<A>)
    requires parent == Above(c) && Attached(c, t, root) && Before(c) == []
    requires t.Branch? && t.left.Leaf? && p == t.node
    modifies if c.Top? then {} else {c.node}
    ensures Attached(c, t.right, root')
  {
    Spliced(c, t, root);
    MinSteps(c);
    Apart(c, t);
    assert p.right == Ptr(t.right);
    hide Inorder, Before, After, Refs, CtxRefs, Holds, Distinct, CtxDistinct;
    assert allocated(Refs(t.right));
    root' := root;
    if parent == null {
      root' := p.right;
    } else {
      parent.left := p.right;
    }
    assert Holds(t.right);
  }

  /** Walks down the left spine, recording the nodes passed. */
  method LeftSpine<A>(root: Node<A>, stack: array<Node?<A>>, ghost tree: Tree<A>)
      returns (p: Node<A>, tos: int, ghost c: Ctx<A>, ghost t: Tree<A>)
    requires root == Ptr(tree) && Holds(tree) && Distinct(tree)
    requires stack.Length == STACK_SIZE && Height(tree) < STACK_SIZE
    modifies stack
    ensures OnStack(stack, c, tos) && Plug(c, t) == tree && Attached(c, t, root) && Before(c) == []
    ensures t.Branch? && t.left.Leaf? && p == t.node
  {
    hide Distinct, CtxDistinct, Refs, CtxRefs, Inorder;
    assert allocated(Refs(tree));
    c, t := Top, tree;
    p, tos := root, 0;
    while p.left != null
      invariant OnStack(stack, c, tos) && Plug(c, t) == tree && Holds(tree) && Holds(t) && Before(c) == []
      invariant t.Branch? && p == t.node
      decreases t
    {
      PathHeight(c, t);
      PathLength(c);
      stack[tos] := p;
      p, tos := p.left, tos + 1;
      c, t := Down(c, t, -1), t.left;
      PlugHolds(c, t);
    }
    TakeApart(c, t);
  }

  // ---------- Replacing a node by the minimum of its right subtree ----------

  /** `d` leads down the left spine of the right subtree of `t`, to its minimum, the root of `s`. */
  ghost predicate MinBelow<A>(t: Tree<A>, d: Ctx<A>, s: Tree<A>) {
    t.Branch? && s.Branch? && s.left.Leaf? && Plug(d, s) == t.right && Before(d) == []
  }

  /** The path to the place the minimum left, once its node has taken over from the root of `t`. */
  ghost function Promoted<A>(c: Ctx<A>, t: Tree<A>, d: Ctx<A>, s: Tree<A>): Ctx<A>
    requires t.Branch? && s.Branch?
  {
    Join(Frame(c, 1, s.node, s.item, t.info, t.left), d)
  }

  lemma PromotedNodes<A>(c: Ctx<A>, t: Tree<A>, d: Ctx<A>, s: Tree<A>)
    requires MinBelow(t, d, s)
    ensures Nodes(Promoted(c, t, d, s), s.right) <= Nodes(c, t)
    ensures t.node in Nodes(c, t) && s.node in Nodes(c, t)
    ensures d.Frame? ==> d.node in Nodes(c, t)
    ensures c.Frame? ==> c.node in Nodes(c, t)
  {
    JoinRefs(Frame(c, 1, s.node, s.item, t.info, t.left), d);
    PlugRefs(d, s);
    assert Refs(s.right) <= Refs(s) && s.node in Refs(s);
  }

  lemma PromotedItems<A>(c: Ctx<A>, t: Tree<A>, d: Ctx<A>, s: Tree<A>)
    requires MinBelow(t, d, s)
    ensures AllItems(Promoted(c, t, d, s), s.right) == Without(c, t)
  {
    var f := Frame(c, 1, s.node, s.item, t.info, t.left);
    PlugInorder(d, s);
    assert Inorder(s) == [s.item] + Inorder(s.right);
    assert Before(f) == Before(c) + (Inorder(t.left) + [s.item]);
    assert After(f) == After(c);
    hide Before, After, Inorder, Join, Plug;
    JoinOrder(f, d);
    GroupPromoted(Before(c), Inorder(t.left), [s.item], Inorder(s.right), After(d), After(c));
    assert Inorder(t.right) == [s.item] + Inorder(s.right) + After(d);
  }

  lemma PromotedDistinct<A>(c: Ctx<A>, t: Tree<A>, d: Ctx<A>, s: Tree<A>)
    requires MinBelow(t, d, s) && CtxDistinct(c) && Distinct(t) && CtxRefs(c) !! Refs(t)
    ensures var c' := Promoted(c, t, d, s);
            CtxDistinct(c') && Distinct(s.right) && CtxRefs(c') !! Refs(s.right)
    ensures CtxDistinct(d) && Distinct(s) && CtxRefs(d) !! Refs(s) && CtxRefs(d) <= Refs(t.right) &&
            Refs(s) <= Refs(t.right)
  {
    var f := Frame(c, 1, s.node, s.item, t.info, t.left);
    PlugDistinct(d, s);
    PlugRefs(d, s);
    JoinDistinct(f, d);
    JoinRefs(f, d);
  }

  /** On the stack, the promoted node stands where the node it replaced stood. */
  lemma PromotedPath<A>(c: Ctx<A>, t: Tree<A>, d: Ctx<A>, s: Tree<A>)
    requires MinBelow(t, d, s)
    ensures var path := Path(Join(Down(c, t, 1), d));
            |path| == Depth(c) + 1 + Depth(d) && path[|path| - 1] == (if d.Top? then t.node else d.node) &&
            path[..Depth(c)] == Path(c) && Path(Promoted(c, t, d, s)) == path[Depth(c) := s.node]
    ensures Steps(Promoted(c, t, d, s)) == Steps(Join(Down(c, t, 1), d))
  {
    var f, g := Down(c, t, 1), Frame(c, 1, s.node, s.item, t.info, t.left);
    JoinPath(f, d);
    JoinPath(g, d);
    PathLength(c);
    PathLength(d);
  }

  method MovePointers<A>(p: Node<A>, m: Node<A>, prev_m: Node<A>)
    requires p != m && prev_m != m
    modifies m, prev_m`left
    ensures m.item == old(m.item) && m.info == p.info && m.left == p.left
    ensures prev_m != p ==> prev_m.left == old(m.right) && m.right == p.right
    ensures prev_m == p ==> p.left == old(p.left) && m.right == old(m.right)
  {
    if prev_m != p {
      prev_m.left := m.right;
      m.right := p.right;
    }
    m.left := p.left;
    m.info := p.info;
  }

  /** The path of the promoted node, once its pointers and those of the node above it are set. */
  lemma PromotedHolds<A>(c: Ctx<A>, t: Tree<A>, d: Ctx<A>, s: Tree<A>, root: Node?<A>)
    requires MinBelow(t, d, s) && CtxHolds(c, s.node, root) && Holds(t.left) && Holds(s.right)
    requires s.node.item == s.item && s.node.info == t.info && s.node.left == Ptr(t.left)
    requires d.Top? ==> s.node.right == Ptr(s.right)
    requires d.Frame? ==>
               d.node.item == d.item && d.node.info == d.info && d.node.left == Ptr(s.right) &&
               d.node.right == Ptr(d.sibling) && Holds(d.sibling) && CtxHolds(d.up, d.node, s.node.right)
    ensures CtxHolds(Promoted(c, t, d, s), Ptr(s.right), root)
  {
    MinSteps(d);
    var f := Frame(c, 1, s.node, s.item, t.info, t.left);
    assert CtxHolds(f, s.node.right, root);
    assert CtxHolds(d, Ptr(s.right), s.node.right);
    JoinHolds(f, d, Ptr(s.right), s.node.right, root);
  }

  /** Walks from `p`, the root of `t`, to the minimum of its right subtree, recording the nodes passed. */
  method DescendMin<A>(p: Node<A>, stack: array<Node?<A>>, tos0: int, ghost c: Ctx<A>, ghost t: Tree<A>)
      returns (m: Node<A>, tos: int, ghost d: Ctx<A>, ghost s: Tree<A>)
    requires OnStack(stack, c, tos0) && t.Branch? && p == t.node && t.right.Branch? && Holds(t)
    requires Depth(c) + Height(t) < STACK_SIZE
    modifies stack
    ensures MinBelow(t, d, s) && m == s.node && OnStack(stack, Join(Down(c, t, 1), d), tos)
    ensures tos == tos0 + 1 + Depth(d)
  {
    hide Distinct, CtxDistinct, Refs, CtxRefs, Inorder;
    assert Holds(t.right);
    PathLength(c);
    assert allocated(Refs(t.right));
    stack[tos0] := p;
    ghost var f := Down(c, t, 1);
    d, s := Top, t.right;
    m, tos := p.right, tos0 + 1;
    while m.left != null
      invariant Plug(d, s) == t.right && Before(d) == [] && s.Branch? && m == s.node && Holds(t.right) && Holds(s)
      invariant OnStack(stack, Join(f, d), tos) && tos == tos0 + 1 + Depth(d)
      decreases s
    {
      PathHeight(d, s);
      assert Holds(s.left);
      stack[tos] := m;
      m, tos := m.left, tos + 1;
      d, s := Down(d, s, -1), s.left;
      PlugHolds(d, s);
    }
  }

  /** What is known before the promotion, piece by piece. */
  lemma BeforePromotion<A>(p: Node<A>, m: Node<A>, prev_m: Node<A>,
                           c: Ctx<A>, t: Tree<A>, d: Ctx<A>, s: Tree<A>, root: Node?<A>)
    requires MinBelow(t, d, s) && Holds(t) && Distinct(t) && CtxDistinct(c) && CtxRefs(c) !! Refs(t)
    requires CtxHolds(c, m, root)
    requires p == t.node && m == s.node && prev_m == (if d.Top? then p else d.node)
    ensures p != m && prev_m != m && Holds(t.left) && Holds(s.right)
    ensures p.info == t.info && p.left == Ptr(t.left) && m.item == s.item && m.right == Ptr(s.right)
    ensures d.Top? ==> p.right == m
    ensures d.Frame? ==>
              d.node != p && d.node.item == d.item && d.node.info == d.info && d.node.right == Ptr(d.sibling) &&
              Holds(d.sibling) && CtxHolds(d.up, d.node, p.right)
    ensures var w := {m, prev_m};
            w !! Refs(t.left) && w !! Refs(s.right) && w !! CtxRefs(c) &&
            (d.Frame? ==> w !! Refs(d.sibling) && w !! CtxRefs(d.up))
  {
    PromotedDistinct(c, t, d, s);
    PlugHolds(d, s);
    MinSteps(d);
    hide Inorder, Before, After, Plug;
    assert CtxHolds(d, m, p.right);
  }

  /** The pointer updates by which `m` takes the place of `p`, below the parent of `p`. */
  method Promote<A>(p: Node<A>, m: Node<A>, prev_m: Node<A>,
                    ghost c: Ctx<A>, ghost t: Tree<A>, ghost d: Ctx<A>, ghost s: Tree<A>, ghost root: Node?<A>)
    requires MinBelow(t, d, s) && Holds(t) && Distinct(t) && CtxDistinct(c) && CtxRefs(c) !! Refs(t)
    requires CtxHolds(c, m, root)
    requires p == t.node && m == s.node && prev_m == (if d.Top? then p else d.node)
    modifies m, prev_m`left
    ensures CtxHolds(Promoted(c, t, d, s), Ptr(s.right), root) && Holds(s.right)
  {
    hide Inorder, Before, After, Plug, Join, Refs, CtxRefs, Holds, CtxHolds, Distinct, CtxDistinct;
    BeforePromotion(p, m, prev_m, c, t, d, s, root);
    ghost var mid := p.right;
    assert allocated(CtxRefs(c)) && allocated(Refs(t.left)) && allocated(Refs(s.right));
    assert d.Frame? ==> allocated(Refs(d.sibling)) && allocated(CtxRefs(d.up));
    MovePointers(p, m, prev_m);
    assert d.Frame? ==> Holds(d.sibling) && CtxHolds(d.up, d.node, mid);
    PromotedHolds(c, t, d, s, root);
  }

  /** `m` takes the place of `p`, from the parent of `p` down. */
  method PutMin<A>(root: Node?<A>, parent: Node?<A>, p: Node<A>, m: Node<A>, prev_m: Node<A>,
                   ghost c: Ctx<A>, ghost t: Tree<A>, ghost d: Ctx<A>, ghost s: Tree<A>)
      returns (root': Node?<A>)
    requires parent == Above(c) && Attached(c, t, root) && MinBelow(t, d, s)
    requires p == t.node && m == s.node && prev_m == (if d.Top? then p else d.node)
    modifies Nodes(c, t)
    ensures Attached(Promoted(c, t, d, s), s.right, root')
  {
    hide Distinct, CtxDistinct, Refs, CtxRefs, Inorder, Before, After, Holds, CtxHolds;
    PromotedNodes(c, t, d, s);
    PromotedDistinct(c, t, d, s);
    Apart(c, t);
    assert allocated(CtxRefs(c)) && allocated(Refs(t));
    root' := ReplaceChild(root, parent, p, m, c);
    assert Holds(t);
    Promote(p, m, prev_m, c, t, d, s, root');
  }

  /** A path with nothing before its end went left all the way. */
  lemma {:induction false} MinSteps<A>(d: Ctx<A>)
    requires Before(d) == []
    ensures d.Frame? ==> d.dir == -1 && Before(d.up) == []
  {
  }
}
