/** 2-3 trees (italos/lib/tree23.c) over mutable nodes with an explicit path stack.

    A link of a node leads to a node or, in the lowest nodes, to an item; a subtree that is just an
    item is a `Tip`.  So the code for the lowest nodes and the code for the nodes above them, which
    the source writes out twice, is one method each here. */
module TwoThreeTree {
  import opened Items
  import opened Sequences
  import opened Wrappers

  datatype Kind = LeafLink | InternalLink

  datatype Link = Null | NodeLink(node: Node) | ItemLink(item: Item)

  class Node {
    var key_item1: Option<Item>
    var key_item2: Option<Item>
    var left: Link
    var middle: Link
    var right: Link
    var link_kind: Kind

    constructor (kind: Kind, left: Link, middle: Link, key: Option<Item>)
      ensures Has(left, middle, Null, key, None, kind)
    {
      link_kind, this.left, this.middle, key_item1 := kind, left, middle, key;
      right, key_item2 := Null, None;
    }

    /** All fields at once. */
    predicate Has(a: Link, b: Link, c: Link, k1: Option<Item>, k2: Option<Item>, kind: Kind)
      reads this
    {
      left == a && middle == b && right == c && key_item1 == k1 && key_item2 == k2 && link_kind == kind
    }
  }

  // ---------- Shapes ----------

  datatype Tree =
    | Tip(item: Item)
    | Two(node: Node, left: Tree, middle: Tree)
    | Three(node: Node, left: Tree, middle: Tree, right: Tree)

  ghost function Lnk(t: Tree): Link {
    if t.Tip? then ItemLink(t.item) else NodeLink(t.node)
  }

  ghost function KindOf(child: Tree): Kind {
    if child.Tip? then LeafLink else InternalLink
  }

  ghost function Inorder(t: Tree): seq<Item> {
    match t
    case Tip(a) => [a]
    case Two(_, l, m) => Inorder(l) + Inorder(m)
    case Three(_, l, m, r) => Inorder(l) + Inorder(m) + Inorder(r)
  }

  ghost function Min(t: Tree): Item {
    if t.Tip? then t.item else Min(t.left)
  }

  ghost function Refs(t: Tree): set<Node> {
    match t
    case Tip(_) => {}
    case Two(n, l, m) => {n} + Refs(l) + Refs(m)
    case Three(n, l, m, r) => {n} + Refs(l) + Refs(m) + Refs(r)
  }

  ghost predicate Distinct(t: Tree) {
    match t
    case Tip(_) => true
    case Two(n, l, m) =>
      Distinct(l) && Distinct(m) && n !in Refs(l) && n !in Refs(m) && Refs(l) !! Refs(m)
    case Three(n, l, m, r) =>
      Distinct(l) && Distinct(m) && Distinct(r) && n !in Refs(l) && n !in Refs(m) && n !in Refs(r) &&
      Refs(l) !! Refs(m) && Refs(l) !! Refs(r) && Refs(m) !! Refs(r)
  }

  /** Levels of nodes above the items. */
  ghost function Levels(t: Tree): nat {
    if t.Tip? then 0 else 1 + Levels(t.left)
  }

  /** All items are at one depth. */
  ghost predicate Even(t: Tree) {
    match t
    case Tip(_) => true
    case Two(_, l, m) => Even(l) && Even(m) && Levels(l) == Levels(m)
    case Three(_, l, m, r) => Even(l) && Even(m) && Even(r) && Levels(l) == Levels(m) == Levels(r)
  }

  /** The heap has shape `t`; in particular the keys are exactly the minima of the subtrees. */
  ghost predicate Holds(t: Tree)
    reads Refs(t)
  {
    match t
    case Tip(_) => true
    case Two(n, l, m) =>
      n.Has(Lnk(l), Lnk(m), Null, Some(Min(m)), None, KindOf(l)) && Holds(l) && Holds(m)
    case Three(n, l, m, r) =>
      n.Has(Lnk(l), Lnk(m), Lnk(r), Some(Min(m)), Some(Min(r)), KindOf(l)) && Holds(l) && Holds(m) && Holds(r)
  }

  // ---------- Paths ----------

  /** The letter says which child of its node a frame leads to, the digit how many children there are. */
  datatype Ctx =
    | Top
    | L2(up: Ctx, node: Node, middle: Tree)
    | L3(up: Ctx, node: Node, middle: Tree, right: Tree)
    | M2(up: Ctx, node: Node, left: Tree)
    | M3(up: Ctx, node: Node, left: Tree, right: Tree)
    | R3(up: Ctx, node: Node, left: Tree, middle: Tree)

  /** The node of the last frame with `t` filled in. */
  ghost function Fill(c: Ctx, t: Tree): Tree
    requires !c.Top?
  {
    match c
    case L2(_, n, m) => Two(n, t, m)
    case L3(_, n, m, r) => Three(n, t, m, r)
    case M2(_, n, l) => Two(n, l, t)
    case M3(_, n, l, r) => Three(n, l, t, r)
    case R3(_, n, l, m) => Three(n, l, m, t)
  }

  ghost function Plug(c: Ctx, t: Tree): Tree
    decreases c
  {
    if c.Top? then t else Plug(c.up, Fill(c, t))
  }

  ghost function Before(c: Ctx): seq<Item> {
    match c
    case Top => []
    case L2(up, _, _) => Before(up)
    case L3(up, _, _, _) => Before(up)
    case M2(up, _, l) => Before(up) + Inorder(l)
    case M3(up, _, l, _) => Before(up) + Inorder(l)
    case R3(up, _, l, m) => Before(up) + (Inorder(l) + Inorder(m))
  }

  ghost function After(c: Ctx): seq<Item> {
    match c
    case Top => []
    case L2(up, _, m) => Inorder(m) + After(up)
    case L3(up, _, m, r) => Inorder(m) + Inorder(r) + After(up)
    case M2(up, _, _) => After(up)
    case M3(up, _, _, r) => Inorder(r) + After(up)
    case R3(up, _, _, _) => After(up)
  }

  /** The nodes of the subtrees beside the last step. */
  ghost function SideRefs(c: Ctx): set<Node>
    requires !c.Top?
  {
    match c
    case L2(_, _, m) => Refs(m)
    case L3(_, _, m, r) => Refs(m) + Refs(r)
    case M2(_, _, l) => Refs(l)
    case M3(_, _, l, r) => Refs(l) + Refs(r)
    case R3(_, _, l, m) => Refs(l) + Refs(m)
  }

  ghost function CtxRefs(c: Ctx): set<Node> {
    if c.Top? then {} else {c.node} + SideRefs(c) + CtxRefs(c.up)
  }

  ghost predicate SideDistinct(c: Ctx)
    requires !c.Top?
  {
    match c
    case L2(_, _, m) => Distinct(m)
    case L3(_, _, m, r) => Distinct(m) && Distinct(r) && Refs(m) !! Refs(r)
    case M2(_, _, l) => Distinct(l)
    case M3(_, _, l, r) => Distinct(l) && Distinct(r) && Refs(l) !! Refs(r)
    case R3(_, _, l, m) => Distinct(l) && Distinct(m) && Refs(l) !! Refs(m)
  }

  ghost predicate CtxDistinct(c: Ctx) {
    c.Top? ||
    (SideDistinct(c) && c.node !in SideRefs(c) && c.node !in CtxRefs(c.up) && SideRefs(c) !! CtxRefs(c.up) &&
     CtxDistinct(c.up))
  }

  ghost predicate SideEven(c: Ctx, h: nat)
    requires !c.Top?
  {
    match c
    case L2(_, _, m) => Even(m) && Levels(m) == h
    case L3(_, _, m, r) => Even(m) && Even(r) && Levels(m) == Levels(r) == h
    case M2(_, _, l) => Even(l) && Levels(l) == h
    case M3(_, _, l, r) => Even(l) && Even(r) && Levels(l) == Levels(r) == h
    case R3(_, _, l, m) => Even(l) && Even(m) && Levels(l) == Levels(m) == h
  }

  /** Everything hangs at one depth once a subtree of `h` levels hangs at the end of the path. */
  ghost predicate CtxEven(c: Ctx, h: nat) {
    c.Top? || (SideEven(c, h) && CtxEven(c.up, h + 1))
  }

  ghost function Path(c: Ctx): seq<Node> {
    if c.Top? then [] else Path(c.up) + [c.node]
  }

  /** What `path_info` records for the last step. */
  ghost function Step(c: Ctx): int
    requires !c.Top?
  {
    if c.L2? || c.L3? then -1 else if c.R3? then 1 else 0
  }

  ghost function Steps(c: Ctx): seq<int> {
    if c.Top? then [] else Steps(c.up) + [Step(c)]
  }

  /** The minimum of the subtree of the last node, when the subtree below has minimum `min`. */
  ghost function UpMin(c: Ctx, min: Item): Item
    requires !c.Top?
  {
    if c.L2? || c.L3? then min else Min(c.left)
  }

  ghost predicate SideHolds(c: Ctx)
    requires !c.Top?
    reads SideRefs(c)
  {
    match c
    case L2(_, _, m) => Holds(m)
    case L3(_, _, m, r) => Holds(m) && Holds(r)
    case M2(_, _, l) => Holds(l)
    case M3(_, _, l, r) => Holds(l) && Holds(r)
    case R3(_, _, l, m) => Holds(l) && Holds(m)
  }

  /** The fields of the last node of the path, whose subtree beyond is linked by `hole` and has minimum `min`. */
  ghost predicate FrameHas(c: Ctx, hole: Link, min: Item)
    requires !c.Top?
    reads c.node
  {
    var kind := if hole.ItemLink? then LeafLink else InternalLink;
    match c
    case L2(_, n, m) => n.Has(hole, Lnk(m), Null, Some(Min(m)), None, kind)
    case L3(_, n, m, r) => n.Has(hole, Lnk(m), Lnk(r), Some(Min(m)), Some(Min(r)), kind)
    case M2(_, n, l) => n.Has(Lnk(l), hole, Null, Some(min), None, kind)
    case M3(_, n, l, r) => n.Has(Lnk(l), hole, Lnk(r), Some(min), Some(Min(r)), kind)
    case R3(_, n, l, m) => n.Has(Lnk(l), Lnk(m), hole, Some(Min(m)), Some(min), kind)
  }

  /** The heap has the shape of the path, which leads from `root` to `hole`. */
  ghost predicate CtxHolds(c: Ctx, hole: Link, min: Item, root: Link)
    reads CtxRefs(c)
  {
    if c.Top? then root == hole
    else FrameHas(c, hole, min) && SideHolds(c) && CtxHolds(c.up, NodeLink(c.node), UpMin(c, min), root)
  }

  ghost function AllItems(c: Ctx, t: Tree): seq<Item> {
    Before(c) + Inorder(t) + After(c)
  }

  ghost function Nodes(c: Ctx, t: Tree): set<Node> {
    CtxRefs(c) + Refs(t)
  }

  /** In the tree at `root`, the path `c` leads to the subtree `t`. */
  ghost predicate Attached(c: Ctx, t: Tree, root: Node)
    reads CtxRefs(c), Refs(t)
  {
    CtxHolds(c, Lnk(t), Min(t), NodeLink(root)) && Holds(t) && CtxDistinct(c) && Distinct(t) && CtxRefs(c) !! Refs(t)
  }

  // ---------- Facts about plugging ----------

  lemma {:induction false} PlugInorder(c: Ctx, t: Tree)
    ensures Inorder(Plug(c, t)) == AllItems(c, t)
    decreases c
  {
    if !c.Top? {
      PlugInorder(c.up, Fill(c, t));
      FillItems(c, t);
    }
  }

  lemma FillItems(c: Ctx, t: Tree)
    requires !c.Top?
    ensures AllItems(c.up, Fill(c, t)) == AllItems(c, t)
    ensures Nodes(c.up, Fill(c, t)) == Nodes(c, t)
    ensures Min(Fill(c, t)) == UpMin(c, Min(t))
  {
  }

  lemma {:induction false} PlugRefs(c: Ctx, t: Tree)
    ensures Refs(Plug(c, t)) == Nodes(c, t)
    decreases c
  {
    if !c.Top? {
      PlugRefs(c.up, Fill(c, t));
      FillItems(c, t);
    }
  }

  lemma FillDistinct(c: Ctx, t: Tree)
    requires !c.Top?
    ensures CtxDistinct(c.up) && Distinct(Fill(c, t)) && CtxRefs(c.up) !! Refs(Fill(c, t)) <==>
            CtxDistinct(c) && Distinct(t) && CtxRefs(c) !! Refs(t)
  {
  }

  lemma {:induction false} PlugDistinct(c: Ctx, t: Tree)
    ensures Distinct(Plug(c, t)) <==> CtxDistinct(c) && Distinct(t) && CtxRefs(c) !! Refs(t)
    decreases c
  {
    if !c.Top? {
      PlugDistinct(c.up, Fill(c, t));
      FillDistinct(c, t);
    }
  }

  lemma FillEven(c: Ctx, t: Tree)
    requires !c.Top?
    ensures CtxEven(c.up, Levels(Fill(c, t))) && Even(Fill(c, t)) <==> CtxEven(c, Levels(t)) && Even(t)
  {
  }

  lemma {:induction false} PlugEven(c: Ctx, t: Tree)
    ensures Even(Plug(c, t)) <==> CtxEven(c, Levels(t)) && Even(t)
    decreases c
  {
    if !c.Top? {
      PlugEven(c.up, Fill(c, t));
      FillEven(c, t);
    }
  }

  lemma FillHolds(c: Ctx, t: Tree, root: Link)
    requires !c.Top? && CtxEven(c, Levels(t)) && Even(t)
    ensures CtxHolds(c.up, Lnk(Fill(c, t)), Min(Fill(c, t)), root) && Holds(Fill(c, t)) <==>
            CtxHolds(c, Lnk(t), Min(t), root) && Holds(t)
  {
  }

  lemma {:induction false} PlugHolds(c: Ctx, t: Tree)
    requires CtxEven(c, Levels(t)) && Even(t)
    ensures Holds(Plug(c, t)) <==> CtxHolds(c, Lnk(t), Min(t), Lnk(Plug(c, t))) && Holds(t)
    decreases c
  {
    if !c.Top? {
      FillEven(c, t);
      PlugHolds(c.up, Fill(c, t));
      FillHolds(c, t, Lnk(Plug(c, t)));
    }
  }

  lemma {:induction false} PlugRoot(c: Ctx, t: Tree, min: Item, root: Link)
    requires CtxHolds(c, Lnk(t), min, root)
    ensures Lnk(Plug(c, t)) == root
    decreases c
  {
    if !c.Top? {
      PlugRoot(c.up, Fill(c, t), UpMin(c, min), root);
    }
  }

  lemma {:induction false} PathLength(c: Ctx)
    ensures |Path(c)| == |Steps(c)| && (|Path(c)| == 0 <==> c.Top?)
  {
    if !c.Top? { PathLength(c.up); }
  }

  lemma {:induction false} PathLevels(c: Ctx, t: Tree)
    requires Even(Plug(c, t))
    ensures |Path(c)| + Levels(t) == Levels(Plug(c, t))
    decreases c
  {
    PlugEven(c, t);
    if !c.Top? {
      PathLevels(c.up, Fill(c, t));
      PlugEven(c.up, Fill(c, t));
    }
  }

  lemma {:induction false} FirstIsMin(t: Tree)
    ensures Inorder(t) != [] && Inorder(t)[0] == Min(t)
  {
    if !t.Tip? { FirstIsMin(t.left); }
  }

  // ---------- Size against height ----------

  /** A tree with L levels of nodes has at least 2^L items. */
  lemma {:induction false} EvenSize(t: Tree)
    requires Even(t)
    ensures |Inorder(t)| >= Pow2(Levels(t))
  {
    if !t.Tip? {
      EvenSize(t.left);
      EvenSize(t.middle);
    }
  }

  /** As long as the count fits a C int, no path overflows the stack. */
  lemma StackSuffices(t: Tree)
    requires Even(t) && |Inorder(t)| <= INT_MAX
    ensures Levels(t) <= 30 < STACK_SIZE
  {
    EvenSize(t);
    Pow2At31();
    var h: nat := Levels(t);
    Pow2Monotone(31, h);
  }

  // ---------- Searching ----------

  /** The search for `k` may go on below the path: everything left of it sorts before `k`, everything
      right of it after `k`, and only at the far left may the subtree start beyond `k`. */
  ghost predicate Guides(c: Ctx, t: Tree, k: int) {
    AllBelow(Before(c), k) && AllAbove(After(c), k) && (Before(c) != [] ==> Min(t).key <= k)
  }

  ghost function ChildOf(t: Tree, dir: int): Tree
    requires !t.Tip? && (dir == 1 ==> t.Three?)
  {
    if dir == 1 then t.right else if dir == 0 then t.middle else t.left
  }

  ghost function Down(c: Ctx, t: Tree, dir: int): Ctx
    requires !t.Tip? && (dir == 1 ==> t.Three?)
  {
    match t
    case Two(n, l, m) => if dir == 0 then M2(c, n, l) else L2(c, n, m)
    case Three(n, l, m, r) =>
      if dir == 1 then R3(c, n, l, m) else if dir == 0 then M3(c, n, l, r) else L3(c, n, m, r)
  }

  /** Where the comparisons with the keys of a node send the search. */
  ghost predicate Directs(t: Tree, k: int, dir: int) {
    !t.Tip? && -1 <= dir <= 1 &&
    (dir == 1 <==> t.Three? && Min(t.right).key <= k) &&
    (dir == 0 ==> Min(t.middle).key <= k) && (dir == -1 ==> k < Min(t.middle).key)
  }

  lemma JoinSorted(a: seq<Item>, b: seq<Item>)
    requires Sorted(a + b)
    ensures Sorted(a) && Sorted(b)
    ensures b != [] ==> AllBelow(a, b[0].key) && (forall k | k < b[0].key :: AllAbove(b, k))
  {
    assert a == (a + b)[..|a|] && b == (a + b)[|a|..];
    if b != [] {
      forall i | 0 <= i < |a| ensures a[i].key < b[0].key {
        assert (a + b)[i].key < (a + b)[|a|].key;
      }
    }
  }

  lemma GuideSorted(t: Tree)
    requires !t.Tip? && Sorted(Inorder(t))
    ensures Sorted(Inorder(t.left)) && Sorted(Inorder(t.middle)) && AllBelow(Inorder(t.left), Min(t.middle).key)
    ensures forall k | k < Min(t.middle).key :: AllAbove(Inorder(t.middle), k)
    ensures t.Three? ==>
              Sorted(Inorder(t.right)) && AllBelow(Inorder(t.left) + Inorder(t.middle), Min(t.right).key) &&
              (forall k | k < Min(t.right).key :: AllAbove(Inorder(t.right), k)) && Min(t.middle).key < Min(t.right).key
  {
    FirstIsMin(t.middle);
    var l, m := Inorder(t.left), Inorder(t.middle);
    if t.Three? {
      FirstIsMin(t.right);
      var r := Inorder(t.right);
      assert Inorder(t) == l + m + r;
      hide Inorder, Min;
      JoinSorted(l + m, r);
      JoinSorted(l, m);
      assert (l + m)[|l|] == m[0];
    } else {
      assert Inorder(t) == l + m;
      hide Inorder, Min;
      JoinSorted(l, m);
    }
  }

  lemma DownSides(c: Ctx, t: Tree, dir: int)
    requires !t.Tip? && -1 <= dir <= 1 && (dir == 1 ==> t.Three?)
    ensures var d := Down(c, t, dir);
            Before(d) == (if dir == -1 then Before(c)
                          else if dir == 0 then Before(c) + Inorder(t.left)
                          else Before(c) + (Inorder(t.left) + Inorder(t.middle))) &&
            After(d) == (if dir == 1 then After(c)
                         else if t.Two? then (if dir == 0 then After(c) else Inorder(t.middle) + After(c))
                         else if dir == 0 then Inorder(t.right) + After(c)
                         else Inorder(t.middle) + Inorder(t.right) + After(c))
  {
  }

  lemma BelowJoin(a: seq<Item>, b: seq<Item>, j: int, k: int)
    requires AllBelow(a, k) && AllBelow(b, j) && j <= k
    ensures AllBelow(a + b, k)
  {
  }

  lemma AboveJoin(a: seq<Item>, b: seq<Item>, k: int)
    requires AllAbove(a, k) && AllAbove(b, k)
    ensures AllAbove(a + b, k)
  {
  }

  lemma GuideDown(c: Ctx, t: Tree, k: int, dir: int)
    requires Guides(c, t, k) && Sorted(Inorder(t)) && Directs(t, k, dir)
    ensures Guides(Down(c, t, dir), ChildOf(t, dir), k) && Sorted(Inorder(ChildOf(t, dir)))
  {
    GuideSorted(t);
    DownSides(c, t, dir);
    assert Min(t) == Min(t.left);
    hide Inorder, Min, Sorted, Before, After, AllBelow, AllAbove;
    var l, m := Inorder(t.left), Inorder(t.middle);
    if dir == 1 {
      BelowJoin(Before(c), l + m, Min(t.right).key, k);
    } else if dir == 0 {
      BelowJoin(Before(c), l, Min(t.middle).key, k);
      if t.Three? { AboveJoin(Inorder(t.right), After(c), k); }
    } else if t.Three? {
      AboveJoin(m, Inorder(t.right), k);
      AboveJoin(m + Inorder(t.right), After(c), k);
    } else {
      AboveJoin(m, After(c), k);
    }
  }

  /** Going down a level and filling the frame in again are inverse. */
  lemma DownFills(c: Ctx, t: Tree, dir: int)
    requires !t.Tip? && -1 <= dir <= 1 && (dir == 1 ==> t.Three?)
    ensures var d := Down(c, t, dir);
            !d.Top? && Fill(d, ChildOf(t, dir)) == t && d.up == c && d.node == t.node && Step(d) == dir
  {
  }

  /** The children of a node in one list, and what the heap says about them. */
  lemma Children(t: Tree)
    requires !t.Tip? && Holds(t) && Even(t)
    ensures t.node.link_kind == KindOf(t.left) && KindOf(t.left) == KindOf(t.middle)
    ensures t.node.left == Lnk(t.left) && t.node.middle == Lnk(t.middle) && t.node.key_item1 == Some(Min(t.middle))
    ensures if t.Two? then t.node.right == Null && t.node.key_item2 == None
            else t.node.right == Lnk(t.right) && t.node.key_item2 == Some(Min(t.right)) &&
                 KindOf(t.right) == KindOf(t.left)
    ensures Holds(t.left) && Holds(t.middle) && (t.Three? ==> Holds(t.right))
    ensures Min(t) == Min(t.left)
  {
  }

  // ---------- Insertion, one level ----------

  /** A node with two children takes a third one, right after the child the path leads to. */
  ghost function Absorbed(c: Ctx, t: Tree, x: Tree): Tree
    requires c.L2? || c.M2?
  {
    if c.L2? then Three(c.node, t, x, c.middle) else Three(c.node, c.left, t, x)
  }

  /** A node with three children is split: the lower two of the now four children stay. */
  ghost function SplitLow(c: Ctx, t: Tree, x: Tree): Tree
    requires c.L3? || c.M3? || c.R3?
  {
    if c.L3? then Two(c.node, t, x) else if c.M3? then Two(c.node, c.left, t) else Two(c.node, c.left, c.middle)
  }

  ghost function SplitHigh(c: Ctx, t: Tree, x: Tree, split: Node): Tree
    requires c.L3? || c.M3? || c.R3?
  {
    if c.L3? then Two(split, c.middle, c.right) else if c.M3? then Two(split, x, c.right) else Two(split, t, x)
  }

  /** The items once those of `x` follow those of `t`. */
  ghost function WithNext(c: Ctx, t: Tree, x: Tree): seq<Item> {
    Before(c) + Inorder(t) + Inorder(x) + After(c)
  }

  lemma AbsorbedFacts(c: Ctx, t: Tree, x: Tree)
    requires c.L2? || c.M2?
    ensures var v := Absorbed(c, t, x);
            AllItems(c.up, v) == WithNext(c, t, x) && Nodes(c.up, v) == Nodes(c, t) + Refs(x) &&
            Lnk(v) == NodeLink(c.node) && Min(v) == UpMin(c, Min(t))
  {
  }

  lemma AbsorbedEven(c: Ctx, t: Tree, x: Tree)
    requires c.L2? || c.M2?
    requires CtxEven(c, Levels(t)) && Even(t) && Even(x) && Levels(x) == Levels(t)
    ensures var v := Absorbed(c, t, x); Even(v) && Levels(v) == Levels(t) + 1 && CtxEven(c.up, Levels(v))
  {
  }

  lemma AbsorbedDistinct(c: Ctx, t: Tree, x: Tree)
    requires c.L2? || c.M2?
    requires CtxDistinct(c) && Distinct(t) && CtxRefs(c) !! Refs(t) && Distinct(x) && Refs(x) !! Nodes(c, t)
    ensures var v := Absorbed(c, t, x); CtxDistinct(c.up) && Distinct(v) && CtxRefs(c.up) !! Refs(v)
  {
  }

  lemma SplitItems(c: Ctx, t: Tree, x: Tree, split: Node)
    requires c.L3? || c.M3? || c.R3?
    ensures var v, w := SplitLow(c, t, x), SplitHigh(c, t, x, split);
            WithNext(c.up, v, w) == WithNext(c, t, x) && Min(v) == UpMin(c, Min(t)) &&
            Min(w) == if c.L3? then Min(c.middle) else if c.M3? then Min(x) else Min(t)
  {
    var v, w := SplitLow(c, t, x), SplitHigh(c, t, x, split);
    var b, a, i, j := Before(c.up), After(c.up), Inorder(t), Inorder(x);
    if c.L3? {
      var m, r := Inorder(c.middle), Inorder(c.right);
      assert Inorder(v) == i + j && Inorder(w) == m + r;
      assert b + (i + j) + (m + r) + a == b + i + j + (m + r + a);
    } else if c.M3? {
      var l, r := Inorder(c.left), Inorder(c.right);
      assert Inorder(v) == l + i && Inorder(w) == j + r;
      assert b + (l + i) + (j + r) + a == b + l + i + j + (r + a);
    } else {
      var l, m := Inorder(c.left), Inorder(c.middle);
      assert Inorder(v) == l + m && Inorder(w) == i + j;
      assert b + (l + m) + (i + j) + a == b + (l + m) + i + j + a;
    }
  }

  lemma SplitRefs(c: Ctx, t: Tree, x: Tree, split: Node)
    requires c.L3? || c.M3? || c.R3?
    ensures var v, w := SplitLow(c, t, x), SplitHigh(c, t, x, split);
            Nodes(c.up, v) + Refs(w) == Nodes(c, t) + Refs(x) + {split} &&
            Lnk(v) == NodeLink(c.node) && Lnk(w) == NodeLink(split)
  {
  }

  lemma SplitEven(c: Ctx, t: Tree, x: Tree, split: Node)
    requires c.L3? || c.M3? || c.R3?
    requires CtxEven(c, Levels(t)) && Even(t) && Even(x) && Levels(x) == Levels(t)
    ensures var v, w := SplitLow(c, t, x), SplitHigh(c, t, x, split);
            Even(v) && Even(w) && Levels(v) == Levels(w) == Levels(t) + 1 && CtxEven(c.up, Levels(v))
  {
  }

  lemma SplitDistinct(c: Ctx, t: Tree, x: Tree, split: Node)
    requires c.L3? || c.M3? || c.R3?
    requires CtxDistinct(c) && Distinct(t) && CtxRefs(c) !! Refs(t) && Distinct(x) && Refs(x) !! Nodes(c, t)
    requires split !in Nodes(c, t) && split !in Refs(x)
    ensures var v, w := SplitLow(c, t, x), SplitHigh(c, t, x, split);
            CtxDistinct(c.up) && Distinct(v) && CtxRefs(c.up) !! Refs(v) && Distinct(w) && Refs(w) !! Nodes(c.up, v)
  {
  }

  /** Links `x`, whose minimum is `x_min`, into node `p` right after the child on side `dir`; a node
      with three children is split, and the new node is returned for the level above. */
  method InsertLink(p: Node, dir: int, x: Link, x_min: Item) returns (split: Node?, split_min: Item)
    requires -1 <= dir <= 1 && p.key_item1.Some? && (dir == 1 ==> p.key_item2.Some?)
    modifies p
    ensures split == null <==> old(p.key_item2).None?
    ensures split == null ==>
              if dir == 0 then
                old(p.right) == Null ==>
                p.Has(old(p.left), old(p.middle), x, old(p.key_item1), Some(x_min), old(p.link_kind))
              else p.Has(old(p.left), x, old(p.middle), Some(x_min), old(p.key_item1), old(p.link_kind))
    ensures split != null ==> fresh(split)
    ensures split != null ==>
              var kind := if x.ItemLink? then LeafLink else InternalLink;
              if dir == 1 then
                p.Has(old(p.left), old(p.middle), Null, old(p.key_item1), None, old(p.link_kind)) &&
                split.Has(old(p.right), x, Null, Some(x_min), None, kind) && split_min == old(p.key_item2).value
              else if dir == 0 then
                p.Has(old(p.left), old(p.middle), Null, old(p.key_item1), None, old(p.link_kind)) &&
                split.Has(x, old(p.right), Null, old(p.key_item2), None, kind) && split_min == x_min
              else
                p.Has(old(p.left), x, Null, Some(x_min), None, old(p.link_kind)) &&
                split.Has(old(p.middle), old(p.right), Null, old(p.key_item2), None, kind) &&
                split_min == old(p.key_item1).value
  {
    split, split_min := null, x_min;
    var kind := if x.ItemLink? then LeafLink else InternalLink;
    if dir > 0 {
      split := new Node(kind, p.right, x, Some(x_min));
      split_min := p.key_item2.value;
      p.right := Null;
      p.key_item2 := None;
    } else if dir == 0 {
      if p.key_item2.Some? {
        split := new Node(kind, x, p.right, p.key_item2);
        p.right := Null;
        p.key_item2 := None;
      } else {
        p.right := x;
        p.key_item2 := Some(x_min);
      }
    } else {
      if p.key_item2.Some? {
        split := new Node(kind, p.middle, p.right, p.key_item2);
        p.middle := x;
        split_min := p.key_item1.value;
        p.key_item1 := Some(x_min);
        p.right := Null;
        p.key_item2 := None;
      } else {
        p.right := p.middle;
        p.key_item2 := p.key_item1;
        p.middle := x;
        p.key_item1 := Some(x_min);
      }
    }
  }

  lemma SameKind(a: Tree, b: Tree)
    requires Levels(a) == Levels(b)
    ensures a.Tip? == b.Tip? && KindOf(a) == KindOf(b)
  {
  }

  /** What the heap holds at the end of a path, piece by piece. */
  lemma LastNode(c: Ctx, t: Tree, root: Node)
    requires !c.Top? && Attached(c, t, root)
    ensures FrameHas(c, Lnk(t), Min(t)) && SideHolds(c)
    ensures CtxHolds(c.up, NodeLink(c.node), UpMin(c, Min(t)), NodeLink(root))
    ensures c.node !in Refs(t) && c.node !in SideRefs(c) && c.node !in CtxRefs(c.up) && c.node in Nodes(c, t)
  {
  }

  /** All children hang at the level of `t`. */
  lemma SideKinds(c: Ctx, t: Tree)
    requires !c.Top? && CtxEven(c, Levels(t))
    ensures match c
            case L2(_, _, m) => KindOf(m) == KindOf(t)
            case L3(_, _, m, r) => KindOf(m) == KindOf(r) == KindOf(t)
            case M2(_, _, l) => KindOf(l) == KindOf(t)
            case M3(_, _, l, r) => KindOf(l) == KindOf(r) == KindOf(t)
            case R3(_, _, l, m) => KindOf(l) == KindOf(m) == KindOf(t)
  {
  }

  /** `x` is a subtree of the same height that can be hung in right after `t`. */
  ghost predicate Beside(c: Ctx, t: Tree, x: Tree)
    reads Refs(x)
  {
    Even(x) && Levels(x) == Levels(t) && Holds(x) && Distinct(x) && Refs(x) !! Nodes(c, t)
  }

  /** Links the subtree `x` in at the last node of the path, right after `t`. */
  method InsertBeside(p: Node, dir: int, x: Link, x_min: Item, ghost c: Ctx, ghost t: Tree, ghost xt: Tree,
                      ghost root: Node)
      returns (split: Node?, split_min: Item, ghost t': Tree, ghost xt': Tree)
    requires !c.Top? && p == c.node && dir == Step(c) && Attached(c, t, root)
    requires CtxEven(c, Levels(t)) && Even(t) && Beside(c, t, xt) && x == Lnk(xt) && x_min == Min(xt)
    modifies p
    ensures Attached(c.up, t', root) && Lnk(t') == NodeLink(p)
    ensures Even(t') && Levels(t') == Levels(t) + 1 && CtxEven(c.up, Levels(t'))
    ensures split == null ==>
              AllItems(c.up, t') == WithNext(c, t, xt) && Nodes(c.up, t') == Nodes(c, t) + Refs(xt)
    ensures split != null ==>
              fresh(split) && WithNext(c.up, t', xt') == WithNext(c, t, xt) &&
              Nodes(c.up, t') + Refs(xt') == Nodes(c, t) + Refs(xt) + {split} &&
              Beside(c.up, t', xt') && Lnk(xt') == NodeLink(split) && split_min == Min(xt')
  {
    hide Inorder, Before, After, Refs, CtxRefs, SideRefs, Holds, CtxHolds, Distinct, CtxDistinct, SideDistinct,
         Even, CtxEven, SideEven, Levels, Min;
    LastNode(c, t, root);
    SideKinds(c, t);
    SameKind(t, xt);
    SideApart(c);
    assert allocated(Refs(t)) && allocated(Refs(xt)) && allocated(SideRefs(c)) && allocated(CtxRefs(c.up)) &&
           allocated(CtxRefs(c));
    assert p !in Refs(xt);
    split, split_min := InsertLink(p, dir, x, x_min);
    assert SideHolds(c) && CtxHolds(c.up, NodeLink(c.node), UpMin(c, Min(t)), NodeLink(root)) && Holds(t) && Holds(xt);
    xt' := xt;
    if c.L2? || c.M2? {
      t' := Absorbed(c, t, xt);
      AbsorbedFacts(c, t, xt);
      AbsorbedEven(c, t, xt);
      AbsorbedDistinct(c, t, xt);
      AbsorbedHolds(c, t, xt);
    } else {
      t', xt' := SplitLow(c, t, xt), SplitHigh(c, t, xt, split);
      SplitItems(c, t, xt, split);
      SplitRefs(c, t, xt, split);
      SplitEven(c, t, xt, split);
      assert split !in Refs(t) && split !in Refs(xt) && split !in CtxRefs(c);
      SplitDistinct(c, t, xt, split);
      SplitHolds(c, t, xt, split);
    }
  }

  lemma SideApart(c: Ctx)
    requires !c.Top?
    ensures SideRefs(c) <= CtxRefs(c)
  {
  }

  lemma AbsorbedHolds(c: Ctx, t: Tree, x: Tree)
    requires c.L2? || c.M2?
    requires Holds(t) && Holds(x) && SideHolds(c)
    requires c.L2? ==> c.node.Has(Lnk(t), Lnk(x), Lnk(c.middle), Some(Min(x)), Some(Min(c.middle)), KindOf(t))
    requires c.M2? ==> c.node.Has(Lnk(c.left), Lnk(t), Lnk(x), Some(Min(t)), Some(Min(x)), KindOf(c.left))
    ensures Holds(Absorbed(c, t, x))
  {
  }

  lemma SplitHolds(c: Ctx, t: Tree, x: Tree, split: Node)
    requires c.L3? || c.M3? || c.R3?
    requires Holds(t) && Holds(x) && SideHolds(c)
    requires c.L3? ==>
               c.node.Has(Lnk(t), Lnk(x), Null, Some(Min(x)), None, KindOf(t)) &&
               split.Has(Lnk(c.middle), Lnk(c.right), Null, Some(Min(c.right)), None, KindOf(c.middle))
    requires c.M3? ==>
               c.node.Has(Lnk(c.left), Lnk(t), Null, Some(Min(t)), None, KindOf(c.left)) &&
               split.Has(Lnk(x), Lnk(c.right), Null, Some(Min(c.right)), None, KindOf(x))
    requires c.R3? ==>
               c.node.Has(Lnk(c.left), Lnk(c.middle), Null, Some(Min(c.middle)), None, KindOf(c.left)) &&
               split.Has(Lnk(t), Lnk(x), Null, Some(Min(x)), None, KindOf(t))
    ensures Holds(SplitLow(c, t, x)) && Holds(SplitHigh(c, t, x, split))
  {
  }

  // ---------- The least item and the key that names it ----------

  ghost predicate Leftmost(c: Ctx) {
    c.Top? || ((c.L2? || c.L3?) && Leftmost(c.up))
  }

  lemma {:induction false} NothingBefore(c: Ctx)
    ensures Before(c) == [] <==> Leftmost(c)
  {
    if !c.Top? {
      NothingBefore(c.up);
      if !c.L2? && !c.L3? { FirstIsMin(c.left); }
    }
  }

  /** The frames below the last step that did not go left; no key in them depends on the minimum below. */
  ghost function Low(c: Ctx): Ctx {
    match c
    case L2(up, n, m) => L2(Low(up), n, m)
    case L3(up, n, m, r) => L3(Low(up), n, m, r)
    case _ => Top
  }

  ghost function High(c: Ctx): Ctx {
    if c.L2? || c.L3? then High(c.up) else c
  }

  ghost function LowRoot(c: Ctx, hole: Link): Link {
    if c.L2? || c.L3? then LowRoot(c.up, NodeLink(c.node)) else hole
  }

  lemma {:induction false} CtxCut(c: Ctx, hole: Link, min: Item, root: Link)
    ensures CtxHolds(c, hole, min, root) <==>
            CtxHolds(Low(c), hole, min, LowRoot(c, hole)) && CtxHolds(High(c), LowRoot(c, hole), min, root)
    decreases c
  {
    if c.L2? || c.L3? { CtxCut(c.up, NodeLink(c.node), min, root); }
  }

  lemma {:induction false} LowAnyMin(c: Ctx, hole: Link, min: Item, min': Item, root: Link)
    requires CtxHolds(Low(c), hole, min, root)
    ensures CtxHolds(Low(c), hole, min', root)
    decreases c
  {
    if c.L2? || c.L3? { LowAnyMin(c.up, NodeLink(c.node), min, min', root); }
  }

  lemma {:induction false} CutApart(c: Ctx)
    requires CtxDistinct(c)
    ensures CtxRefs(c) == CtxRefs(Low(c)) + CtxRefs(High(c)) && CtxRefs(Low(c)) !! CtxRefs(High(c)) &&
            CtxDistinct(High(c))
  {
    if c.L2? || c.L3? { CutApart(c.up); }
  }

  lemma {:induction false} HighTop(c: Ctx)
    ensures High(c).Top? <==> Leftmost(c)
    ensures !High(c).L2? && !High(c).L3?
  {
    if c.L2? || c.L3? { HighTop(c.up); }
  }

  /** The key of the path that names the minimum of the subtree at its end: in which node, and whether
      it is the second one; none if all steps went left. */
  ghost function KeyHolder(c: Ctx): (r: (Node?, bool))
    ensures r == var h := High(c); if h.Top? then (null, false) else (h.node, h.R3?)
  {
    if c.Top? then (null, false) else if c.L2? || c.L3? then KeyHolder(c.up) else (c.node, c.R3?)
  }

  /** When all steps went left no key names the minimum. */
  lemma MinFree(c: Ctx, hole: Link, min: Item, min': Item, root: Link)
    requires Leftmost(c) && CtxHolds(c, hole, min, root)
    ensures CtxHolds(c, hole, min', root)
  {
    HighTop(c);
    CtxCut(c, hole, min, root);
    CtxCut(c, hole, min', root);
    LowAnyMin(c, hole, min, min', LowRoot(c, hole));
  }

  /** Rewrites the key that names the minimum of the subtree at the end of the path. */
  method SetMinKey(holder: Node, second: bool, min': Item, ghost c: Ctx, ghost hole: Link, ghost min: Item,
                   ghost root: Link)
    requires CtxHolds(c, hole, min, root) && CtxDistinct(c) && KeyHolder(c) == (holder, second)
    modifies holder
    ensures CtxHolds(c, hole, min', root)
  {
    hide Holds, CtxHolds, CtxRefs, SideRefs, SideHolds, CtxDistinct, Distinct, Refs, Low, High, LowRoot, KeyHolder, Min;
    ghost var h, link := High(c), LowRoot(c, hole);
    HighTop(c);
    CutApart(c);
    CtxCut(c, hole, min, root);
    LowAnyMin(c, hole, min, min', link);
    HighNode(h, link, min, root);
    if second {
      holder.key_item2 := Some(min');
    } else {
      holder.key_item1 := Some(min');
    }
    HighAgain(h, link, min', root);
    CtxCut(c, hole, min', root);
  }

  lemma HighNode(h: Ctx, link: Link, min: Item, root: Link)
    requires h.M2? || h.M3? || h.R3?
    requires CtxHolds(h, link, min, root) && CtxDistinct(h)
    ensures FrameHas(h, link, min) && SideHolds(h) && CtxHolds(h.up, NodeLink(h.node), Min(h.left), root)
    ensures h.node in CtxRefs(h) && h.node !in SideRefs(h) && h.node !in CtxRefs(h.up)
  {
  }

  lemma HighAgain(h: Ctx, link: Link, min: Item, root: Link)
    requires h.M2? || h.M3? || h.R3?
    requires FrameHas(h, link, min) && SideHolds(h) && CtxHolds(h.up, NodeLink(h.node), Min(h.left), root)
    ensures CtxHolds(h, link, min, root)
  {
  }

  // ---------- Finding, adding and removing an item, in terms of the ordered map ----------

  lemma Found(c: Ctx, a: Item)
    requires Sorted(AllItems(c, Tip(a)))
    ensures Lookup(MapOf(AllItems(c, Tip(a))), a.key) == Some(a)
    ensures Sorted(Before(c) + After(c)) && MapOf(Before(c) + After(c)) == MapOf(AllItems(c, Tip(a))) - {a.key}
    ensures |Before(c) + After(c)| == |AllItems(c, Tip(a))| - 1
  {
    assert AllItems(c, Tip(a)) == Before(c) + [a] + After(c);
    MapAround(Before(c), a, After(c));
    PutAndDrop(MapOf(Before(c) + After(c)), a);
  }

  lemma Missing(c: Ctx, a: Item, k: int)
    requires Guides(c, Tip(a), k) && a.key != k && Sorted(AllItems(c, Tip(a)))
    ensures k !in MapOf(AllItems(c, Tip(a)))
  {
    forall y | y in AllItems(c, Tip(a)) ensures y.key != k {
      assert y in Before(c) || y == a || y in After(c);
    }
  }

  /** Where the new item goes: after the item at the end of the path, or, at the very front, before it. */
  ghost function Added(c: Ctx, a: Item, x: Item): seq<Item> {
    if x.key < a.key then [x] + [a] + After(c) else Before(c) + [a] + [x] + After(c)
  }

  lemma AddedMap(c: Ctx, a: Item, x: Item)
    requires Guides(c, Tip(a), x.key) && a.key != x.key && Sorted(AllItems(c, Tip(a)))
    ensures Sorted(Added(c, a, x)) && MapOf(Added(c, a, x)) == AfterInsert(MapOf(AllItems(c, Tip(a))), x)
    ensures x.key !in MapOf(AllItems(c, Tip(a))) && |Added(c, a, x)| == |AllItems(c, Tip(a))| + 1
    ensures x.key < a.key ==> Leftmost(c)
    ensures Added(c, a, x)[0] == if x.key < a.key then x else AllItems(c, Tip(a))[0]
  {
    Missing(c, a, x.key);
    NothingBefore(c);
    var b, e := Before(c), After(c);
    assert AllItems(c, Tip(a)) == b + [a] + e;
    hide MapOf, Before, After, Leftmost, Sorted, AllAbove, AllBelow, Inorder;
    if x.key < a.key {
      assert b + [a] + e == [a] + e;
      AddBefore(a, x, e);
    } else {
      AddAfter(b, a, x, e);
    }
  }

  lemma AddBefore(a: Item, x: Item, e: seq<Item>)
    requires Sorted([a] + e) && x.key < a.key
    ensures Sorted([x] + [a] + e) && MapOf([x] + [a] + e) == MapOf([a] + e)[x.key := x]
  {
    var s := [a] + e;
    assert s[0] == a;
    assert AllAbove(s, x.key);
    assert [] + s == s && [] + [x] + s == [x] + [a] + e;
    SortedAround([], x, s);
    MapAround([], x, s);
  }

  lemma AddAfter(b: seq<Item>, a: Item, x: Item, e: seq<Item>)
    requires Sorted(b + [a] + e) && a.key < x.key && AllAbove(e, x.key)
    ensures Sorted(b + [a] + [x] + e) && MapOf(b + [a] + [x] + e) == MapOf(b + [a] + e)[x.key := x]
  {
    var s := b + [a];
    JoinSorted(s, e);
    assert s[|b|] == a;
    assert AllBelow(s, x.key);
    SortedAround(s, x, e);
    MapAround(s, x, e);
  }

  // ---------- Deletion, one level ----------

  /** Node `p` at the end of the path has lost a child: what remains below it is the one subtree `m`,
      and the links of `p` no longer count. */
  ghost predicate Under(c: Ctx, p: Node, m: Tree, root: Node)
    reads CtxRefs(c), Refs(m), p
  {
    CtxHolds(c, NodeLink(p), Min(m), NodeLink(root)) && Holds(m) && CtxDistinct(c) && Distinct(m) &&
    CtxRefs(c) !! Refs(m) &&
    p !in Nodes(c, m) && p.right == Null && p.key_item2 == None && p.link_kind == KindOf(m)
  }

  /** The neighbour that gives a child or takes `m` in: the one to the left, or, for a left child, the one
      to the right. */
  ghost function Sib(c: Ctx): Tree
    requires !c.Top?
  {
    if c.M2? || c.M3? then c.left else c.middle
  }

  ghost function WithSib(c: Ctx, s: Tree): Ctx
    requires !c.Top?
  {
    match c
    case L2(up, n, _) => L2(up, n, s)
    case L3(up, n, _, r) => L3(up, n, s, r)
    case M2(up, n, _) => M2(up, n, s)
    case M3(up, n, _, r) => M3(up, n, s, r)
    case R3(up, n, l, _) => R3(up, n, l, s)
  }

  /** What the neighbour keeps when it gives a child away. */
  ghost function Kept(c: Ctx): Tree
    requires !c.Top? && Sib(c).Three?
  {
    var s := Sib(c);
    if c.L2? || c.L3? then Two(s.node, s.middle, s.right) else Two(s.node, s.left, s.middle)
  }

  /** Node `p` with the borrowed child beside `m`. */
  ghost function Refilled(c: Ctx, p: Node, m: Tree): Tree
    requires !c.Top? && Sib(c).Three?
  {
    if c.L2? || c.L3? then Two(p, m, Sib(c).left) else Two(p, Sib(c).right, m)
  }

  /** The neighbour with `m` taken in. */
  ghost function Joined(c: Ctx, m: Tree): Tree
    requires !c.Top? && Sib(c).Two?
  {
    var s := Sib(c);
    if c.L2? || c.L3? then Three(s.node, m, s.left, s.middle) else Three(s.node, s.left, s.middle, m)
  }

  /** The path to the neighbour once it is one of only two children. */
  ghost function Narrow(c: Ctx): Ctx
    requires c.L3? || c.M3? || c.R3?
  {
    if c.R3? then M2(c.up, c.node, c.left) else L2(c.up, c.node, c.right)
  }

  /** What the frame at the end of the path puts before and after the subtree, apart from `Sib`. */
  lemma SibSides(c: Ctx, s: Tree)
    requires !c.Top?
    ensures var l, r := if c.R3? then Inorder(c.left) else [], if c.L3? || c.M3? then Inorder(c.right) else [];
            var d := WithSib(c, s);
            if c.L2? || c.L3? then Before(d) == Before(c.up) && After(d) == Inorder(s) + (r + After(c.up))
            else Before(d) == Before(c.up) + l + Inorder(s) && After(d) == r + After(c.up)
    ensures WithSib(c, Sib(c)) == c
  {
    hide Inorder;
    SibSidesOf(WithSib(c, s));
  }

  lemma SibSidesOf(d: Ctx)
    requires !d.Top?
    ensures var l, r := if d.R3? then Inorder(d.left) else [], if d.L3? || d.M3? then Inorder(d.right) else [];
            if d.L2? || d.L3? then Before(d) == Before(d.up) && After(d) == Inorder(Sib(d)) + (r + After(d.up))
            else Before(d) == Before(d.up) + l + Inorder(Sib(d)) && After(d) == r + After(d.up)
  {
    var b, e, s := Before(d.up), After(d.up), Inorder(Sib(d));
    if d.L3? {
      assert After(d) == s + Inorder(d.right) + e;
      Associative(s, Inorder(d.right), e);
    } else if d.R3? {
      assert Before(d) == b + (Inorder(d.left) + s);
      Associative(b, Inorder(d.left), s);
    }
    hide Inorder;
    Empty(b);
    Empty(e);
  }

  lemma BorrowItems(c: Ctx, p: Node, m: Tree)
    requires !c.Top? && Sib(c).Three?
    ensures AllItems(WithSib(c, Kept(c)), Refilled(c, p, m)) == AllItems(c, m)
  {
    var s, k, t := Sib(c), Kept(c), Refilled(c, p, m);
    SibSides(c, s);
    SibSides(c, k);
    var i, x, y, z := Inorder(m), Inorder(s.left), Inorder(s.middle), Inorder(s.right);
    assert Inorder(s) == x + y + z;
    assert Inorder(k) == (if c.L2? || c.L3? then y + z else x + y);
    assert Inorder(t) == (if c.L2? || c.L3? then i + x else z + i);
    var l, r := if c.R3? then Inorder(c.left) else [], if c.L3? || c.M3? then Inorder(c.right) else [];
    hide Inorder, Before, After, WithSib, Kept, Refilled;
    GroupRight(Before(c.up), i, x, y, z, r + After(c.up));
    GroupLeft(Before(c.up) + l, x, y, z, i, r + After(c.up));
  }

  lemma BorrowNodes(c: Ctx, p: Node, m: Tree)
    requires !c.Top? && Sib(c).Three?
    ensures var c', t := WithSib(c, Kept(c)), Refilled(c, p, m);
            Nodes(c', t) == Nodes(c, m) + {p} && c'.up == c.up && c'.node == c.node &&
            UpMin(c', Min(t)) == UpMin(c, Min(m))
  {
  }

  lemma BorrowEven(c: Ctx, p: Node, m: Tree)
    requires !c.Top? && Sib(c).Three? && CtxEven(c, Levels(m) + 1) && Even(m)
    ensures var c', t := WithSib(c, Kept(c)), Refilled(c, p, m); CtxEven(c', Levels(t)) && Even(t)
    ensures KindOf(Sib(c).left) == KindOf(Sib(c).middle) == KindOf(Sib(c).right) == KindOf(m)
  {
  }

  lemma BorrowDistinct(c: Ctx, p: Node, m: Tree)
    requires !c.Top? && Sib(c).Three?
    requires CtxDistinct(c) && Distinct(m) && CtxRefs(c) !! Refs(m) && p !in CtxRefs(c) && p !in Refs(m)
    ensures var c', t := WithSib(c, Kept(c)), Refilled(c, p, m);
            CtxDistinct(c') && Distinct(t) &&
            CtxRefs(c') !! Refs(t)
  {
  }

  lemma JoinItems(c: Ctx, m: Tree)
    requires !c.Top? && Sib(c).Two?
    ensures c.L2? || c.M2? ==> AllItems(c.up, Joined(c, m)) == AllItems(c, m)
    ensures c.L3? || c.M3? || c.R3? ==> AllItems(Narrow(c), Joined(c, m)) == AllItems(c, m)
  {
    var s, j := Sib(c), Joined(c, m);
    SibSides(c, s);
    var i, x, y := Inorder(m), Inorder(s.left), Inorder(s.middle);
    assert Inorder(s) == x + y;
    assert Inorder(j) == (if c.L2? || c.L3? then i + x + y else x + y + i);
    var l, r := if c.R3? then Inorder(c.left) else [], if c.L3? || c.M3? then Inorder(c.right) else [];
    if c.R3? { assert Before(Narrow(c)) == Before(c.up) + l && After(Narrow(c)) == After(c.up); }
    if c.L3? || c.M3? { assert Before(Narrow(c)) == Before(c.up) && After(Narrow(c)) == r + After(c.up); }
    hide Inorder, Before, After, WithSib, Joined, Narrow;
    assert r == [] ==> r + After(c.up) == After(c.up);
    assert l == [] ==> Before(c.up) + l == Before(c.up);
    GroupRight(Before(c.up), i, x, y, [], r + After(c.up));
    GroupLeft(Before(c.up) + l, x, y, i, [], r + After(c.up));
  }

  lemma JoinNodes(c: Ctx, m: Tree)
    requires !c.Top? && Sib(c).Two?
    ensures Nodes(c.up, Joined(c, m)) + {c.node} <= Nodes(c, m) &&
            Min(Joined(c, m)) == (if c.L2? || c.L3? then Min(m) else Min(Sib(c)))
    ensures c.L3? || c.M3? || c.R3? ==>
              Nodes(Narrow(c), Joined(c, m)) == Nodes(c, m) &&
              UpMin(Narrow(c), Min(Joined(c, m))) == UpMin(c, Min(m))
  {
  }

  lemma JoinEven(c: Ctx, m: Tree)
    requires !c.Top? && Sib(c).Two? && CtxEven(c, Levels(m) + 1) && Even(m)
    ensures var j := Joined(c, m);
            Even(j) && Levels(j) == Levels(m) + 1 && CtxEven(c.up, Levels(j) + 1) &&
            (c.L3? || c.M3? || c.R3? ==> CtxEven(Narrow(c), Levels(j)))
    ensures KindOf(Sib(c).left) == KindOf(Sib(c).middle) == KindOf(m)
  {
  }

  lemma JoinDistinct(c: Ctx, m: Tree)
    requires !c.Top? && Sib(c).Two?
    requires CtxDistinct(c) && Distinct(m) && CtxRefs(c) !! Refs(m)
    ensures var j := Joined(c, m);
            Distinct(j) && CtxDistinct(c.up) && CtxRefs(c.up) !! Refs(j) &&
            c.node !in Nodes(c.up, j)
    ensures c.L3? || c.M3? || c.R3? ==>
              var j := Joined(c, m); CtxDistinct(Narrow(c)) && CtxRefs(Narrow(c)) !! Refs(j)
  {
  }

  /** The third child of the last node, if any, beside the path and `Sib`. */
  ghost function OtherRefs(c: Ctx): set<Node>
    requires !c.Top?
  {
    if c.R3? then Refs(c.left) else if c.L3? || c.M3? then Refs(c.right) else {}
  }

  ghost predicate OtherHolds(c: Ctx)
    requires !c.Top?
    reads OtherRefs(c)
  {
    (c.R3? ==> Holds(c.left)) && (c.L3? || c.M3? ==> Holds(c.right))
  }

  /** All nodes of the subtrees a borrow or a merge moves about as they are, and of the path above. */
  ghost function Still(c: Ctx, m: Tree): set<Node>
    requires !c.Top? && !Sib(c).Tip?
  {
    var s := Sib(c);
    Refs(m) + Refs(s.left) + Refs(s.middle) + (if s.Three? then Refs(s.right) else {}) + OtherRefs(c) + CtxRefs(c.up)
  }

  /** Those subtrees and that path are intact in the heap. */
  ghost predicate StillHolds(c: Ctx, m: Tree, root: Node)
    requires !c.Top? && !Sib(c).Tip?
    reads Still(c, m)
  {
    var s := Sib(c);
    Holds(m) && Holds(s.left) && Holds(s.middle) && (s.Three? ==> Holds(s.right)) && OtherHolds(c) &&
    CtxHolds(c.up, NodeLink(c.node), UpMin(c, Min(m)), NodeLink(root))
  }

  lemma Neighbours(c: Ctx, p: Node, m: Tree, root: Node)
    requires !c.Top? && Under(c, p, m, root) && CtxEven(c, Levels(m) + 1) && Even(m)
    ensures var s := Sib(c);
            !s.Tip? && p != s.node && p != c.node && s.node != c.node && {p, s.node, c.node} !! Still(c, m) &&
            StillHolds(c, m, root) && FrameHas(c, NodeLink(p), Min(m)) &&
            s.node.Has(Lnk(s.left), Lnk(s.middle), if s.Three? then Lnk(s.right) else Null,
                       Some(Min(s.middle)), if s.Three? then Some(Min(s.right)) else None, KindOf(s.left))
  {
    SibNode(c, m);
    SibApart(c, p, m);
    SibHolds(c, NodeLink(p), Min(m), NodeLink(root));
  }

  lemma SibApart(c: Ctx, p: Node, m: Tree)
    requires !c.Top? && !Sib(c).Tip?
    requires CtxDistinct(c) && Distinct(m) && CtxRefs(c) !! Refs(m) && p !in Nodes(c, m)
    ensures p != Sib(c).node && p != c.node && Sib(c).node != c.node && {p, Sib(c).node, c.node} !! Still(c, m)
  {
    var s := Sib(c);
    assert Refs(s) <= SideRefs(c) && OtherRefs(c) <= SideRefs(c);
    assert Refs(s) == {s.node} + Refs(s.left) + Refs(s.middle) + if s.Three? then Refs(s.right) else {};
    assert Distinct(s) && s.node !in OtherRefs(c);
    assert s.node !in Refs(s.left) + Refs(s.middle) + if s.Three? then Refs(s.right) else {};
    assert c.node !in SideRefs(c) && c.node !in CtxRefs(c.up) && SideRefs(c) !! CtxRefs(c.up);
    assert CtxRefs(c) == {c.node} + SideRefs(c) + CtxRefs(c.up);
    hide Refs, CtxDistinct, Distinct, SideDistinct, Sib, CtxRefs, SideRefs, OtherRefs;
  }

  lemma SibHolds(c: Ctx, hole: Link, min: Item, root: Link)
    requires !c.Top? && !Sib(c).Tip? && CtxHolds(c, hole, min, root)
    ensures FrameHas(c, hole, min) && OtherHolds(c) && CtxHolds(c.up, NodeLink(c.node), UpMin(c, min), root)
    ensures var s := Sib(c);
            Holds(s.left) && Holds(s.middle) && (s.Three? ==> Holds(s.right)) &&
            s.node.Has(Lnk(s.left), Lnk(s.middle), if s.Three? then Lnk(s.right) else Null,
                       Some(Min(s.middle)), if s.Three? then Some(Min(s.right)) else None, KindOf(s.left))
  {
    assert SideHolds(c) && Holds(Sib(c));
  }

  lemma SibNode(c: Ctx, m: Tree)
    requires !c.Top? && CtxEven(c, Levels(m) + 1)
    ensures !Sib(c).Tip?
  {
  }

  /** Node `p` borrows a child from its neighbour `q`: the last one if `q` is to the left of `p`, the first
      one otherwise. */
  method BorrowFields(parent: Node, p: Node, q: Node, merge: Link, dir: int)
    requires p != q && p != parent && q != parent && p.right == Null && p.key_item2 == None
    modifies parent, p, q
    ensures var kind := old(p.link_kind);
            if dir > 0 then
              p.Has(old(q.right), merge, Null, old(parent.key_item2), None, kind) &&
              q.Has(old(q.left), old(q.middle), Null, old(q.key_item1), None, old(q.link_kind)) &&
              parent.Has(old(parent.left), old(parent.middle), old(parent.right),
                         old(parent.key_item1), old(q.key_item2), old(parent.link_kind))
            else if dir == 0 then
              p.Has(old(q.right), merge, Null, old(parent.key_item1), None, kind) &&
              q.Has(old(q.left), old(q.middle), Null, old(q.key_item1), None, old(q.link_kind)) &&
              parent.Has(old(parent.left), old(parent.middle), old(parent.right),
                         old(q.key_item2), old(parent.key_item2), old(parent.link_kind))
            else
              p.Has(merge, old(q.left), Null, old(parent.key_item1), None, kind) &&
              q.Has(old(q.middle), old(q.right), Null, old(q.key_item2), None, old(q.link_kind)) &&
              parent.Has(old(parent.left), old(parent.middle), old(parent.right),
                         old(q.key_item1), old(parent.key_item2), old(parent.link_kind))
  {
    if dir > 0 {
      p.left := q.right;
      p.middle := merge;
      p.key_item1 := parent.key_item2;
      parent.key_item2 := q.key_item2;
    } else if dir == 0 {
      p.left := q.right;
      p.middle := merge;
      p.key_item1 := parent.key_item1;
      parent.key_item1 := q.key_item2;
    } else {
      p.left := merge;
      p.middle := q.left;
      p.key_item1 := parent.key_item1;
      q.left := q.middle;
      parent.key_item1 := q.key_item1;
      q.middle := q.right;
      q.key_item1 := q.key_item2;
    }
    q.right := Null;
    q.key_item2 := None;
  }

  /** The heap after a borrow is the path with the changed neighbour, ending in the refilled node. */
  lemma BorrowHolds(c: Ctx, p: Node, m: Tree, root: Node)
    requires !c.Top? && Sib(c).Three? && StillHolds(c, m, root)
    requires KindOf(Sib(c).left) == KindOf(Sib(c).middle) == KindOf(Sib(c).right) == KindOf(m)
    requires var s := Sib(c);
             if c.L2? || c.L3? then
               s.node.Has(Lnk(s.middle), Lnk(s.right), Null, Some(Min(s.right)), None, KindOf(m)) &&
               p.Has(Lnk(m), Lnk(s.left), Null, Some(Min(s.left)), None, KindOf(m))
             else
               s.node.Has(Lnk(s.left), Lnk(s.middle), Null, Some(Min(s.middle)), None, KindOf(m)) &&
               p.Has(Lnk(s.right), Lnk(m), Null, Some(Min(m)), None, KindOf(m))
    requires FrameHas(WithSib(c, Kept(c)), NodeLink(p), Min(Refilled(c, p, m)))
    ensures var c', t := WithSib(c, Kept(c)), Refilled(c, p, m);
            CtxHolds(c', Lnk(t), Min(t), NodeLink(root)) && Holds(t)
  {
    var c', t := WithSib(c, Kept(c)), Refilled(c, p, m);
    BorrowNodes(c, p, m);
    assert Holds(Kept(c));
    assert SideHolds(c');
  }

  method Borrow(parent: Node, p: Node, q: Node, merge: Link, dir: int, ghost c: Ctx, ghost m: Tree, ghost root: Node)
    requires !c.Top? && Under(c, p, m, root) && CtxEven(c, Levels(m) + 1) && Even(m)
    requires parent == c.node && dir == Step(c) && Sib(c).Three? && q == Sib(c).node && merge == Lnk(m)
    modifies parent, p, q
    ensures var c', t := WithSib(c, Kept(c)), Refilled(c, p, m);
            Attached(c', t, root) && CtxEven(c', Levels(t)) && Even(t) &&
            AllItems(c', t) == AllItems(c, m) && Nodes(c', t) == Nodes(c, m) + {p}
  {
    hide Inorder, Before, After, AllItems, Refs, CtxRefs, SideRefs, Holds, CtxHolds, Distinct, CtxDistinct,
         Even, CtxEven, Levels, Min, Still, UpMin;
    Neighbours(c, p, m, root);
    BorrowItems(c, p, m);
    BorrowNodes(c, p, m);
    BorrowEven(c, p, m);
    BorrowDistinct(c, p, m);
    KeptMins(c, p, m);
    assert allocated(Still(c, m));
    BorrowFields(parent, p, q, merge, dir);
    BorrowHolds(c, p, m, root);
  }

  lemma KeptMins(c: Ctx, p: Node, m: Tree)
    requires !c.Top? && Sib(c).Three?
    ensures Min(Refilled(c, p, m)) == if c.L2? || c.L3? then Min(m) else Min(Sib(c).right)
    ensures Min(Kept(c)) == if c.L2? || c.L3? then Min(Sib(c).middle) else Min(Sib(c))
    ensures Min(Sib(c)) == Min(Sib(c).left)
  {
  }

  /** The neighbour `q` takes `merge` in; `done` tells that the parent still has two children. */
  method MergeFields(parent: Node, q: Node, merge: Link, dir: int) returns (done: bool)
    requires q != parent && q.right == Null && q.key_item2 == None && (dir > 0 ==> parent.key_item2.Some?)
    modifies parent, q
    ensures done <==> old(parent.key_item2).Some?
    ensures if dir < 0 then
              q.Has(merge, old(q.left), old(q.middle), old(parent.key_item1), old(q.key_item1), old(q.link_kind))
            else
              q.Has(old(q.left), old(q.middle), merge, old(q.key_item1),
                    if dir > 0 then old(parent.key_item2) else old(parent.key_item1), old(q.link_kind))
    ensures if !done then
              parent.Has(old(parent.left), old(parent.middle), old(parent.right), old(parent.key_item1), None,
                         old(parent.link_kind))
            else if dir > 0 then
              parent.Has(old(parent.left), old(parent.middle), Null, old(parent.key_item1), None, old(parent.link_kind))
            else
              parent.Has(if dir == 0 then old(parent.left) else NodeLink(q), old(parent.right), Null,
                         old(parent.key_item2), None, old(parent.link_kind))
  {
    if dir > 0 {
      q.right := merge;
      q.key_item2 := parent.key_item2;
      parent.right := Null;
      parent.key_item2 := None;
      return true;
    }
    if dir == 0 {
      q.right := merge;
      q.key_item2 := parent.key_item1;
    } else {
      q.right := q.middle;
      q.key_item2 := q.key_item1;
      q.middle := q.left;
      q.key_item1 := parent.key_item1;
      q.left := merge;
    }
    done := parent.key_item2.Some?;
    if done {
      if dir < 0 {
        parent.left := NodeLink(q);
      }
      parent.middle := parent.right;
      parent.key_item1 := parent.key_item2;
      parent.right := Null;
      parent.key_item2 := None;
    }
  }

  lemma MergeHolds(c: Ctx, m: Tree, root: Node)
    requires !c.Top? && Sib(c).Two? && StillHolds(c, m, root)
    requires KindOf(Sib(c).left) == KindOf(Sib(c).middle) == KindOf(m)
    requires var s := Sib(c);
             if c.L2? || c.L3? then
               s.node.Has(Lnk(m), Lnk(s.left), Lnk(s.middle), Some(Min(s.left)), Some(Min(s.middle)), KindOf(m))
             else
               s.node.Has(Lnk(s.left), Lnk(s.middle), Lnk(m), Some(Min(s.middle)), Some(Min(m)), KindOf(m))
    requires c.L3? || c.M3? || c.R3? ==> FrameHas(Narrow(c), Lnk(Joined(c, m)), Min(Joined(c, m)))
    ensures Holds(Joined(c, m))
    ensures if c.L2? || c.M2? then CtxHolds(c.up, NodeLink(c.node), Min(Joined(c, m)), NodeLink(root))
            else CtxHolds(Narrow(c), Lnk(Joined(c, m)), Min(Joined(c, m)), NodeLink(root))
  {
    JoinNodes(c, m);
    if !c.L2? && !c.M2? { assert SideHolds(Narrow(c)); }
  }

  method Merge(parent: Node, p: Node, q: Node, merge: Link, dir: int, ghost c: Ctx, ghost m: Tree, ghost root: Node)
      returns (done: bool)
    requires !c.Top? && Under(c, p, m, root) && CtxEven(c, Levels(m) + 1) && Even(m)
    requires parent == c.node && dir == Step(c) && Sib(c).Two? && q == Sib(c).node && merge == Lnk(m)
    modifies parent, q
    ensures Even(Joined(c, m)) && Lnk(Joined(c, m)) == NodeLink(q)
    ensures done <==> c.L3? || c.M3? || c.R3?
    ensures done ==>
              var c', t := Narrow(c), Joined(c, m);
              Attached(c', t, root) && CtxEven(c', Levels(t)) && AllItems(c', t) == AllItems(c, m) &&
              Nodes(c', t) <= Nodes(c, m)
    ensures !done ==>
              var t := Joined(c, m);
              Under(c.up, parent, t, root) && CtxEven(c.up, Levels(t) + 1) && AllItems(c.up, t) == AllItems(c, m) &&
              Nodes(c.up, t) + {parent} <= Nodes(c, m)
  {
    hide Inorder, Before, After, AllItems, Refs, CtxRefs, SideRefs, Holds, CtxHolds, Distinct, CtxDistinct,
         Even, CtxEven, Levels, Min, Still, UpMin;
    Neighbours(c, p, m, root);
    JoinItems(c, m);
    JoinNodes(c, m);
    JoinEven(c, m);
    JoinDistinct(c, m);
    SibMin(c);
    assert allocated(Still(c, m));
    done := MergeFields(parent, q, merge, dir);
    MergeHolds(c, m, root);
  }

  lemma SibMin(c: Ctx)
    requires !c.Top? && !Sib(c).Tip?
    ensures Min(Sib(c)) == Min(Sib(c).left)
  {
  }

  // ---------- The dictionary ----------

  /** `tree` is a whole 2-3 tree, laid out in the heap from node `root` on. */
  ghost predicate Whole(tree: Tree, root: Node)
    reads Refs(tree)
  {
    Lnk(tree) == NodeLink(root) && Holds(tree) && Distinct(tree) && Even(tree)
  }

  /** A whole tree, taken apart along a path. */
  lemma TakeApart(c: Ctx, t: Tree, root: Node)
    requires Whole(Plug(c, t), root)
    ensures Attached(c, t, root) && Even(t) && CtxEven(c, Levels(t))
    ensures AllItems(c, t) == Inorder(Plug(c, t)) && Nodes(c, t) == Refs(Plug(c, t))
    ensures |Path(c)| + Levels(t) == Levels(Plug(c, t))
  {
    PlugInorder(c, t);
    PlugRefs(c, t);
    PlugDistinct(c, t);
    PlugEven(c, t);
    PlugHolds(c, t);
    PathLevels(c, t);
  }

  lemma Assemble(c: Ctx, t: Tree, root: Node)
    requires Attached(c, t, root) && Even(t) && CtxEven(c, Levels(t))
    ensures Whole(Plug(c, t), root)
    ensures Inorder(Plug(c, t)) == AllItems(c, t) && Refs(Plug(c, t)) == Nodes(c, t)
  {
    PlugInorder(c, t);
    PlugRefs(c, t);
    PlugDistinct(c, t);
    PlugEven(c, t);
    PlugRoot(c, t, Min(t), NodeLink(root));
    PlugHolds(c, t);
  }

  lemma DownPlug(c: Ctx, t: Tree, dir: int)
    requires !t.Tip? && -1 <= dir <= 1 && (dir == 1 ==> t.Three?)
    ensures Plug(Down(c, t, dir), ChildOf(t, dir)) == Plug(c, t) && ChildOf(t, dir) < t
  {
    DownFills(c, t, dir);
  }

  /** One step further down. */
  lemma StepDown(c: Ctx, t: Tree, dir: int, root: Node)
    requires Attached(c, t, root) && Even(t) && CtxEven(c, Levels(t))
    requires !t.Tip? && -1 <= dir <= 1 && (dir == 1 ==> t.Three?)
    ensures var d, s := Down(c, t, dir), ChildOf(t, dir);
            Attached(d, s, root) && Even(s) && CtxEven(d, Levels(s)) &&
            AllItems(d, s) == AllItems(c, t) && Nodes(d, s) == Nodes(c, t) && Plug(d, s) == Plug(c, t)
  {
    var d, s := Down(c, t, dir), ChildOf(t, dir);
    DownFills(c, t, dir);
    hide Inorder, Before, After, Refs, CtxRefs, Distinct, CtxDistinct, Even, CtxEven, Holds, CtxHolds, Levels, Min;
    FillItems(d, s);
    FillDistinct(d, s);
    FillEven(d, s);
    FillHolds(d, s, NodeLink(root));
  }

  class TwoThree {
    var root: Node
    var n: int
    var min_item: Option<Item>
    const stack: array<Node?>
    const path_info: array<int>
    ghost var tree: Tree

    constructor ()
      ensures Valid() && Contents() == map[] && n == 0 && fresh(Repr()) && fresh(stack) && fresh(path_info)
    {
      n, min_item := 0, None;
      stack := new Node?[STACK_SIZE];
      path_info := new int[STACK_SIZE];
      root := new Node(LeafLink, Null, Null, None);
      tree := Tip(Item(0, 0));
    }

    /** The items in order; with no item or one, the root holds no proper 2-3 tree. */
    ghost function Items(): seq<Item>
      reads this
    {
      if n == 0 then [] else Inorder(tree)
    }

    ghost function Repr(): set<Node>
      reads this
    {
      if n <= 1 then {root} else Refs(tree)
    }

    ghost predicate Valid()
      reads this, Repr()
    {
      stack.Length == STACK_SIZE == path_info.Length && 0 <= n == |Items()| <= INT_MAX && Sorted(Items()) &&
      min_item == (if n == 0 then None else Some(Min(tree))) &&
      if n == 0 then root.Has(Null, Null, Null, None, None, LeafLink)
      else if n == 1 then tree.Tip? && root.Has(Lnk(tree), Null, Null, None, None, LeafLink)
      else Whole(tree, root)
    }

    ghost function Contents(): Contents
      requires Valid()
      reads this, Repr()
    {
      MapOf(Items())
    }

    ghost predicate Stacked(c: Ctx, tos: int)
      reads stack
    {
      stack.Length == STACK_SIZE && 0 <= tos <= STACK_SIZE && stack[..tos] == Path(c)
    }

    ghost predicate Recorded(c: Ctx, tos: int)
      reads stack, path_info
    {
      Stacked(c, tos) && path_info.Length == STACK_SIZE && path_info[..tos] == Steps(c)
    }

    lemma LastStep(c: Ctx, tos: int)
      requires Stacked(c, tos)
      ensures tos == 0 <==> c.Top?
      ensures tos != 0 ==> stack[tos - 1] == c.node && Stacked(c.up, tos - 1)
      ensures tos != 0 && Recorded(c, tos) ==> path_info[tos - 1] == Step(c) && Recorded(c.up, tos - 1)
    {
      PathLength(c);
    }

    lemma AtRoot(k: int)
      requires Valid() && n >= 2
      ensures Whole(tree, root) && Attached(Top, tree, root) && CtxEven(Top, Levels(tree)) && Plug(Top, tree) == tree &&
              Guides(Top, tree, k)
      ensures AllItems(Top, tree) == Items() && Nodes(Top, tree) == Repr() && !tree.Tip? && Levels(tree) < STACK_SIZE
    {
      StackSuffices(tree);
      TakeApart(Top, tree, root);
    }

    lemma NoStep()
      requires Valid()
      ensures Recorded(Top, 0)
    {
    }

    lemma Deeper(t: Tree)
      requires !t.Tip?
      ensures Levels(t) > 0
    {
    }

    method Push(p: Node, dir: int, tos: int, ghost c: Ctx, ghost t: Tree)
      requires Recorded(c, tos) && tos < STACK_SIZE && !t.Tip? && p == t.node
      requires -1 <= dir <= 1 && (dir == 1 ==> t.Three?)
      modifies stack, path_info
      ensures Recorded(Down(c, t, dir), tos + 1)
    {
      DownFills(c, t, dir);
      stack[tos] := p;
      path_info[tos] := dir;
    }

    /** Walks down to the lowest node on the way to the key of `k`, keeping the path and the place of
        the key that names the minimum of the subtree reached. */
    method Search(k: Item) returns (p: Node, tos: int, holder: Node?, second: bool, ghost c: Ctx, ghost t: Tree)
      requires Valid() && n >= 2
      modifies stack, path_info
      ensures Recorded(c, tos) && Attached(c, t, root) && Plug(c, t) == tree && CtxEven(c, Levels(t)) && Even(t)
      ensures !t.Tip? && t.left.Tip? && p == t.node && (holder, second) == KeyHolder(c)
      ensures Guides(c, t, k.key) && Sorted(Inorder(t))
      ensures AllItems(c, t) == Items() && Nodes(c, t) == Repr()
    {
      hide Inorder, Before, After, Refs, CtxRefs, Distinct, CtxDistinct, Even, CtxEven, Holds, CtxHolds, Levels, Min,
           AllItems, Nodes, Sorted, Guides, Plug, Path, Steps, Attached;
      AtRoot(k.key);
      NoStep();
      assert allocated(Refs(tree));
      c, t := Top, tree;
      p, tos, holder, second := root, 0, null, false;
      while p.link_kind != LeafLink
        invariant Recorded(c, tos) && Plug(c, t) == tree && Whole(tree, root) && Holds(t) && Even(t)
        invariant !t.Tip? && p == t.node && (holder, second) == KeyHolder(c)
        invariant Guides(c, t, k.key) && Sorted(Inorder(t))
        decreases t
      {
        TakeApart(c, t, root);
        PathLength(c);
        Children(t);
        Deeper(t);
        var dir, next;
        if p.key_item2.Some? && Compar(k, p.key_item2.value) >= 0 {
          holder, second := p, true;
          dir, next := 1, p.right.node;
        } else if Compar(k, p.key_item1.value) >= 0 {
          holder, second := p, false;
          dir, next := 0, p.middle.node;
        } else {
          dir, next := -1, p.left.node;
        }
        Push(p, dir, tos, c, t);
        GuideDown(c, t, k.key, dir);
        DownPlug(c, t, dir);
        c, t := Down(c, t, dir), ChildOf(t, dir);
        p, tos := next, tos + 1;
        TakeApart(c, t, root);
      }
      TakeApart(c, t, root);
      Children(t);
    }

    // ---------- Insertion ----------

    lemma OneItem(a: Item)
      ensures Inorder(Tip(a)) == [a] && Min(Tip(a)) == a && Sorted([a]) && MapOf([a]) == map[a.key := a]
      ensures Sorted([]) && MapOf([]) == map[]
    {
    }

    lemma PairOfItems(r: Node, a: Item, b: Item)
      requires a.key < b.key
      ensures var t := Two(r, Tip(a), Tip(b));
              Inorder(t) == [a, b] && Min(t) == a && Refs(t) == {r} && Distinct(t) && Even(t) &&
              (r.Has(ItemLink(a), ItemLink(b), Null, Some(b), None, LeafLink) <==> Holds(t))
      ensures Sorted([a, b]) && MapOf([a, b]) == map[a.key := a, b.key := b]
    {
      var t := Two(r, Tip(a), Tip(b));
      assert Inorder(t) == [a] + [b];
      assert Refs(t) == {r};
    }

    /** Inserts into a tree of no or one item, whose root is not a full node yet. */
    method InsertFew(item: Item) returns (existing: Option<Item>)
      requires Valid() && n <= 1
      modifies this`n, this`min_item, this`tree, root
      ensures Valid() && Repr() == {root}
      ensures existing == Lookup(old(Contents()), item.key)
      ensures Contents() == AfterInsert(old(Contents()), item)
    {
      hide Inorder, Refs, Distinct, Even, Holds, Sorted, MapOf;
      if n == 1 { OneItem(tree.item); }
      OneItem(item);
      existing := None;
      if n == 0 {
        root.left := ItemLink(item);
        min_item := Some(item);
        tree := Tip(item);
      } else {
        var first := root.left.item;
        var cmp_result := Compar(item, first);
        if cmp_result == 0 {
          return Some(first);
        }
        if cmp_result > 0 {
          root.middle, root.key_item1 := ItemLink(item), Some(item);
          tree := Two(root, Tip(first), Tip(item));
          PairOfItems(root, first, item);
        } else {
          root.middle, root.key_item1 := ItemLink(first), Some(first);
          root.left, min_item := ItemLink(item), Some(item);
          tree := Two(root, Tip(item), Tip(first));
          PairOfItems(root, item, first);
        }
      }
      n := n + 1;
    }

    method Insert(item: Item) returns (existing: Option<Item>)
      requires Valid() && (item.key in Contents() || n < INT_MAX)
      modifies this, stack, path_info, Repr()
      ensures Valid() && fresh(Repr() - old(Repr()))
      ensures existing == Lookup(old(Contents()), item.key)
      ensures Contents() == AfterInsert(old(Contents()), item)
    {
      hide Inorder, Before, After, Refs, CtxRefs, Distinct, CtxDistinct, Even, CtxEven, Holds, CtxHolds, Levels, Min,
           AllItems, Nodes, Sorted, Guides, Plug, MapOf, Added, WithNext;
      if n <= 1 {
        existing := InsertFew(item);
        assert fresh(Repr() - old(Repr()));
        return;
      }
      assert allocated(Repr());
      var p, tos, holder, second; ghost var c, t;
      p, tos, holder, second, c, t := Search(item);
      assert Valid() && Contents() == old(Contents());
      Children(t);
      var dir, beside;
      if p.key_item2.Some? && Compar(item, p.key_item2.value) >= 0 {
        dir, beside := 1, p.key_item2.value;
      } else if Compar(item, p.key_item1.value) >= 0 {
        dir, beside := 0, p.key_item1.value;
      } else {
        dir, beside := -1, p.left.item;
      }
      ghost var d := Down(c, t, dir);
      LeafItem(c, t, item.key, dir, beside);
      if Compar(item, beside) == 0 {
        Found(d, beside);
        return Some(beside);
      }
      AddedMap(d, beside, item);
      FirstIsMin(tree);
      n := n + 1;
      ghost var news := InsertAt(p, dir, tos, item, beside, c, t);
      FirstIsMin(tree);
      assert Repr() - old(Repr()) <= news;
      existing := None;
    }

    /** The item the comparisons at a lowest node lead to. */
    lemma LeafItem(c: Ctx, t: Tree, k: int, dir: int, beside: Item)
      requires Attached(c, t, root) && Even(t) && CtxEven(c, Levels(t)) && Guides(c, t, k) && Sorted(Inorder(t))
      requires Directs(t, k, dir) && t.left.Tip?
      requires beside == if dir == 1 then Min(t.right) else if dir == 0 then Min(t.middle) else t.left.item
      ensures ChildOf(t, dir) == Tip(beside) && AllItems(Down(c, t, dir), Tip(beside)) == AllItems(c, t)
      ensures Guides(Down(c, t, dir), Tip(beside), k)
    {
      GuideDown(c, t, k, dir);
      StepDown(c, t, dir, root);
    }

    /** An item that sorts before all others takes the place of the first one, which is then the one to insert. */
    method ReplaceFirst(p: Node, dir: int, item: Item, beside: Item, ghost c: Ctx) returns (x: Item, ghost t: Tree)
      requires !c.Top? && p == c.node && dir == Step(c) && Attached(c, Tip(beside), root)
      requires item.key < beside.key ==> dir == -1 && Leftmost(c)
      modifies p, this`min_item
      ensures Attached(c, t, root)
      ensures if item.key < beside.key then x == beside && t == Tip(item) && min_item == Some(item)
              else x == item && t == Tip(beside) && min_item == old(min_item)
    {
      x, t := item, Tip(beside);
      if dir >= 0 || Compar(item, beside) >= 0 {
        return;
      }
      hide Holds, CtxHolds, CtxRefs, SideRefs, SideHolds, CtxDistinct, Distinct, Refs, Leftmost, Min, UpMin, FrameHas;
      LeftmostUp(c);
      UpMinLeft(c, beside);
      UpMinLeft(c, item);
      LastNode(c, Tip(beside), root);
      MinFree(c.up, NodeLink(p), beside, item, NodeLink(root));
      TipHolds(beside);
      TipHolds(item);
      SetFirst(p, item, beside, c);
      min_item := Some(item);
      x, t := beside, Tip(item);
    }

    method SetFirst(p: Node, item: Item, beside: Item, ghost c: Ctx)
      requires (c.L2? || c.L3?) && p == c.node && FrameHas(c, ItemLink(beside), beside) && SideHolds(c)
      requires CtxHolds(c.up, NodeLink(p), item, NodeLink(root)) && p !in SideRefs(c) && p !in CtxRefs(c.up)
      modifies p
      ensures CtxHolds(c, ItemLink(item), item, NodeLink(root))
    {
      hide Holds, SideRefs, Refs, SideHolds, Min;
      p.left := ItemLink(item);
    }

    lemma UpMinLeft(c: Ctx, min: Item)
      requires !c.Top?
      ensures c.L2? || c.L3? ==> UpMin(c, min) == min
    {
    }

    lemma LeftmostUp(c: Ctx)
      requires !c.Top? && Leftmost(c)
      ensures (c.L2? || c.L3?) && Leftmost(c.up)
    {
    }

    lemma TipHolds(a: Item)
      ensures Holds(Tip(a)) && Distinct(Tip(a)) && Refs(Tip(a)) == {} && Min(Tip(a)) == a && Even(Tip(a)) &&
              Levels(Tip(a)) == 0
      ensures Inorder(Tip(a)) == [a]
    {
    }

    lemma NodeIn(c: Ctx, t: Tree)
      requires !t.Tip?
      ensures t.node in Nodes(c, t) && CtxRefs(c) <= Nodes(c, t)
    {
    }

    lemma AddedNext(c: Ctx, a: Item, x: Item)
      requires x.key < a.key ==> Leftmost(c)
      ensures Added(c, a, x) == if x.key < a.key then WithNext(c, Tip(x), Tip(a)) else WithNext(c, Tip(a), Tip(x))
    {
      NothingBefore(c);
      assert [] + [x] + [a] + After(c) == [x] + [a] + After(c);
    }

    lemma TipNodes(c: Ctx, a: Item, b: Item)
      ensures Nodes(c, Tip(a)) == CtxRefs(c) == Nodes(c, Tip(b))
    {
    }

    /** Inserts at the lowest node `p`, right after the item on side `dir`, or before it at the very front. */
    method InsertAt(p: Node, dir: int, tos: int, item: Item, beside: Item, ghost c: Ctx, ghost t: Tree)
        returns (ghost news: set<Node>)
      requires Recorded(c, tos) && Attached(c, t, root) && Even(t) && CtxEven(c, Levels(t))
      requires !t.Tip? && p == t.node && -1 <= dir <= 1 && (dir == 1 ==> t.Three?) && ChildOf(t, dir) == Tip(beside)
      requires item.key < beside.key ==> dir == -1 && Leftmost(Down(c, t, dir))
      modifies this`root, this`tree, this`min_item, Nodes(c, t)
      ensures Whole(tree, root) && Inorder(tree) == Added(Down(c, t, dir), beside, item)
      ensures fresh(news) && Refs(tree) <= Nodes(c, t) + news
      ensures min_item == if item.key < beside.key then Some(item) else old(min_item)
    {
      hide Inorder, Before, After, Refs, CtxRefs, Distinct, CtxDistinct, Even, CtxEven, Holds, CtxHolds, Levels, Min,
           Nodes, Leftmost, WithNext;
      ghost var d, s := Down(c, t, dir), Tip(beside);
      DownFills(c, t, dir);
      StepDown(c, t, dir, root);
      NodeIn(c, t);
      TipHolds(item);
      TipHolds(beside);
      AddedNext(d, beside, item);
      assert allocated(CtxRefs(d)) && allocated(Nodes(c, t));
      var x;
      x, s := ReplaceFirst(p, dir, item, beside, d);
      TipNodes(d, beside, item);
      TipHolds(x);
      assert Nodes(d, s) == Nodes(c, t);
      var split, split_min; ghost var t', x';
      split, split_min, t', x' := InsertBeside(p, dir, ItemLink(x), x, d, s, Tip(x), root);
      news := Spread(p, split, split_min, tos, c, t', x');
      if split != null { news := news + {split}; }
    }

    /** Hands a split up the path, level by level, until some node takes the new child in or the root
        is split. */
    method Spread(p0: Node, split0: Node?, min0: Item, tos0: int, ghost c0: Ctx, ghost t0: Tree, ghost x0: Tree)
        returns (ghost news: set<Node>)
      requires Recorded(c0, tos0) && Attached(c0, t0, root) && Even(t0) && CtxEven(c0, Levels(t0)) &&
               Lnk(t0) == NodeLink(p0)
      requires split0 != null ==> Beside(c0, t0, x0) && Lnk(x0) == NodeLink(split0) && min0 == Min(x0)
      modifies this`root, this`tree, CtxRefs(c0)
      ensures Whole(tree, root)
      ensures Inorder(tree) == if split0 == null then AllItems(c0, t0) else WithNext(c0, t0, x0)
      ensures fresh(news) && Refs(tree) <= Nodes(c0, t0) + (if split0 == null then {} else Refs(x0)) + news
    {
      hide Inorder, Before, After, Refs, CtxRefs, Distinct, CtxDistinct, Even, CtxEven, Holds, CtxHolds, Levels, Min,
           Nodes, Leftmost, WithNext, AllItems;
      var p: Node, split, split_min, tos := p0, split0, min0, tos0;
      ghost var c, t, x := c0, t0, x0;
      news := {};
      ghost var goal := if split0 == null then AllItems(c0, t0) else WithNext(c0, t0, x0);
      while tos != 0 && split != null
        invariant Recorded(c, tos) && Attached(c, t, root) && Even(t) && CtxEven(c, Levels(t)) && Lnk(t) == NodeLink(p)
        invariant split != null ==> Beside(c, t, x) && Lnk(x) == NodeLink(split) && split_min == Min(x)
        invariant goal == if split == null then AllItems(c, t) else WithNext(c, t, x)
        invariant fresh(news)
        invariant Nodes(c, t) + (if split == null then {} else Refs(x)) <=
                  Nodes(c0, t0) + (if split0 == null then {} else Refs(x0)) + news
        invariant CtxRefs(c) <= CtxRefs(c0)
      {
        LastStep(c, tos);
        UpRefs(c);
        tos := tos - 1;
        p := stack[tos];
        split, split_min, t, x := InsertBeside(p, path_info[tos], NodeLink(split), split_min, c, t, x, root);
        c := c.up;
        if split != null { news := news + {split}; }
      }
      LastStep(c, tos);
      if split != null {
        var new_node := GrowRoot(p, split, split_min, c, t, x);
        c, t := Top, Two(new_node, t, x);
        news := news + {new_node};
      }
      Assemble(c, t, root);
      tree := Plug(c, t);
    }

    /** The two halves of the old root become the children of a new one. */
    method GrowRoot(p: Node, split: Node, split_min: Item, ghost c: Ctx, ghost t: Tree, ghost x: Tree)
        returns (new_node: Node)
      requires c.Top? && Attached(c, t, root) && Even(t) && Lnk(t) == NodeLink(p)
      requires Beside(c, t, x) && Lnk(x) == NodeLink(split) && split_min == Min(x)
      modifies this`root
      ensures fresh(new_node) && root == new_node
      ensures var v := Two(new_node, t, x);
              Attached(Top, v, root) && Even(v) && CtxEven(Top, Levels(v)) && AllItems(Top, v) == WithNext(c, t, x) &&
              Nodes(Top, v) == Nodes(c, t) + Refs(x) + {new_node}
    {
      assert allocated(CtxRefs(c)) && allocated(Refs(t)) && allocated(Refs(x));
      new_node := new Node(InternalLink, NodeLink(p), NodeLink(split), Some(split_min));
      NewRoot(new_node, c, t, x);
      root := new_node;
    }

    lemma UpRefs(c: Ctx)
      requires !c.Top?
      ensures CtxRefs(c.up) <= CtxRefs(c) && c.node in CtxRefs(c)
    {
    }

    lemma NewRoot(r: Node, c: Ctx, t: Tree, x: Tree)
      requires c.Top? && Attached(c, t, root) && Even(t) && Beside(c, t, x) && !t.Tip?
      requires r.Has(Lnk(t), Lnk(x), Null, Some(Min(x)), None, InternalLink) && r !in Refs(t) && r !in Refs(x)
      ensures var v := Two(r, t, x);
              Attached(Top, v, r) && Even(v) && CtxEven(Top, Levels(v)) && AllItems(Top, v) == WithNext(c, t, x) &&
              Nodes(Top, v) == Nodes(c, t) + Refs(x) + {r}
    {
    }

    // ---------- Deletion ----------

    /** Deletes from a tree of at most two items, whose root may be left with fewer than two children. */
    method DeleteFew(key: Item) returns (found: Option<Item>)
      requires Valid() && n <= 2
      modifies this`n, this`min_item, this`tree, Repr()
      ensures Valid() && Repr() <= old(Repr())
      ensures found == Lookup(old(Contents()), key.key)
      ensures Contents() == old(Contents()) - {key.key}
    {
      hide Inorder, Refs, Distinct, Even, Holds, Sorted, MapOf;
      FewItems();
      if n == 0 {
        return None;
      }
      if n == 1 {
        if Compar(key, root.left.item) == 0 {
          found := Some(root.left.item);
          root.left, min_item := Null, None;
          n := 0;
          return;
        }
        return None;
      }
      var cmp_result := Compar(key, root.middle.item);
      if cmp_result >= 0 {
        if cmp_result == 0 {
          found := Some(root.middle.item);
          root.middle, root.key_item1 := Null, None;
          n, tree := 1, tree.left;
          return;
        }
        return None;
      }
      if Compar(key, root.left.item) == 0 {
        found := Some(root.left.item);
        DropLeft();
        return;
      }
      return None;
    }

    /** Of two items only the second is kept. */
    method DropLeft()
      requires n == 2 && min_item.Some? && Lnk(tree) == NodeLink(root) && tree.Two? && tree.left.Tip? &&
               tree.middle.Tip?
      requires root.Has(Lnk(tree.left), Lnk(tree.middle), Null, Some(tree.middle.item), None, LeafLink)
      modifies this`n, this`min_item, this`tree, root
      ensures n == 1 && tree == old(tree.middle) && min_item == Some(tree.item)
      ensures root.Has(Lnk(tree), Null, Null, None, None, LeafLink)
    {
      min_item := root.key_item1;
      root.left := ItemLink(root.key_item1.value);
      root.key_item1, root.middle := None, Null;
      n, tree := 1, tree.middle;
    }

    /** What a tree of at most two items looks like. */
    lemma FewItems()
      requires Valid() && n <= 2
      ensures n == 2 ==>
                tree.Two? && tree.node == root && tree.left.Tip? && tree.middle.Tip? && Repr() == {root} &&
                Min(tree) == tree.left.item && tree.left.item.key < tree.middle.item.key &&
                root.Has(Lnk(tree.left), Lnk(tree.middle), Null, Some(tree.middle.item), None, LeafLink)
      ensures Items() == if n == 0 then [] else if n == 1 then [tree.item] else [tree.left.item, tree.middle.item]
      ensures MapOf(Items()) == if n == 0 then map[] else if n == 1 then map[tree.item.key := tree.item]
                                else map[tree.left.item.key := tree.left.item, tree.middle.item.key := tree.middle.item]
      ensures n == 2 ==> Single(tree.left) && Single(tree.middle)
      ensures Sorted([]) && MapOf([]) == map[]
    {
      if n == 2 {
        TwoTips(tree, root);
        var a, b := tree.left.item, tree.middle.item;
        OneItem(a);
        OneItem(b);
        SortedPair(a, b);
        PairOfItems(root, a, b);
      } else if n == 1 {
        OneItem(tree.item);
      }
    }

    /** An item on its own. */
    ghost predicate Single(t: Tree) {
      t.Tip? && Min(t) == t.item && Inorder(t) == [t.item] && Sorted([t.item]) &&
      MapOf([t.item]) == map[t.item.key := t.item]
    }

    lemma SortedPair(a: Item, b: Item)
      requires Sorted([a, b])
      ensures a.key < b.key
    {
      assert [a, b][0] == a && [a, b][1] == b;
    }

    lemma TwoTips(t: Tree, root: Node)
      requires Whole(t, root) && |Inorder(t)| == 2
      ensures t.Two? && t.node == root && t.left.Tip? && t.middle.Tip?
      ensures Inorder(t) == [t.left.item, t.middle.item] && Refs(t) == {root} && Min(t) == t.left.item
      ensures root.Has(Lnk(t.left), Lnk(t.middle), Null, Some(t.middle.item), None, LeafLink)
    {
      EvenSize(t);
      var h: nat := Levels(t);
      Pow2Monotone(2, h);
      assert Pow2(2) == 4;
      FirstIsMin(t.left);
      FirstIsMin(t.middle);
      if t.Three? { FirstIsMin(t.right); }
      assert t.left.Tip? && t.middle.Tip?;
      assert Inorder(t) == [t.left.item] + [t.middle.item];
    }

    method Delete(key: Item) returns (found: Option<Item>)
      requires Valid()
      modifies this, stack, path_info, Repr()
      ensures Valid() && Repr() <= old(Repr())
      ensures found == Lookup(old(Contents()), key.key)
      ensures Contents() == old(Contents()) - {key.key}
    {
      hide Inorder, Before, After, Refs, CtxRefs, Distinct, CtxDistinct, Even, CtxEven, Holds, CtxHolds, Levels, Min,
           AllItems, Nodes, Sorted, Guides, Plug, MapOf;
      if n <= 2 {
        found := DeleteFew(key);
        return;
      }
      assert allocated(Repr());
      var p, tos, holder, second; ghost var c, t;
      p, tos, holder, second, c, t := Search(key);
      assert Valid() && Contents() == old(Contents());
      Children(t);
      var dir, item;
      if p.key_item2.Some? && Compar(key, p.key_item2.value) >= 0 {
        dir, item := 1, p.key_item2.value;
      } else if Compar(key, p.key_item1.value) >= 0 {
        dir, item := 0, p.key_item1.value;
      } else {
        dir, item := -1, p.left.item;
      }
      ghost var d := Down(c, t, dir);
      LeafItem(c, t, key.key, dir, item);
      if Compar(key, item) != 0 {
        Missing(d, item, key.key);
        return None;
      }
      Found(d, item);
      found := Some(item);
      FirstIsMin(tree);
      FirstLeft(c, t, dir, item);
      TwoAreFew(c, t);
      DroppedItems(c, t, dir);
      n := n - 1;
      RemoveLeaf(p, dir, tos, holder, second, c, t);
      FirstIsMin(tree);
    }

    /** Node `t` without its child on side `dir`; of two children the other one alone remains. */
    ghost function Dropped(t: Tree, dir: int): Tree
      requires !t.Tip? && (dir == 1 ==> t.Three?)
    {
      if t.Two? then (if dir == 0 then t.left else t.middle)
      else Two(t.node, if dir == -1 then t.middle else t.left, if dir == 1 then t.middle else t.right)
    }

    lemma DroppedItems(c: Ctx, t: Tree, dir: int)
      requires !t.Tip? && -1 <= dir <= 1 && (dir == 1 ==> t.Three?)
      ensures AllItems(c, Dropped(t, dir)) == Before(Down(c, t, dir)) + After(Down(c, t, dir))
      ensures Nodes(c, Dropped(t, dir)) <= Nodes(c, t)
      ensures Min(Dropped(t, dir)) == if dir == -1 then Min(t.middle) else Min(t)
    {
      DownSides(c, t, dir);
      var b, l, m, e := Before(c), Inorder(t.left), Inorder(t.middle), After(c);
      assert Nodes(c, Dropped(t, dir)) <= Nodes(c, t);
      if t.Two? {
        assert b + m + e == b + (m + e);
      } else {
        var r := Inorder(t.right);
        assert Inorder(Dropped(t, dir)) == if dir == -1 then m + r else if dir == 0 then l + r else l + m;
        hide Inorder, Before, After, Refs, CtxRefs, Nodes, Min;
        GroupWithout(b, l, m, r, e);
      }
    }

    /** The first item changes only when the very first one goes. */
    lemma FirstLeft(c: Ctx, t: Tree, dir: int, item: Item)
      requires !t.Tip? && -1 <= dir <= 1 && (dir == 1 ==> t.Three?) && ChildOf(t, dir) == Tip(item)
      ensures var d := Down(c, t, dir);
              var s := Before(d) + After(d);
              s != [] && s[0] == if dir == -1 && Leftmost(c) then Min(t.middle) else AllItems(d, Tip(item))[0]
    {
      DownSides(c, t, dir);
      NothingBefore(c);
      FirstIsMin(t.left);
      FirstIsMin(t.middle);
    }

    lemma TwoAreFew(c: Ctx, t: Tree)
      requires |AllItems(c, t)| >= 3 && !t.Tip? && t.left.Tip? && Even(t)
      ensures t.Two? ==> !c.Top?
    {
      TipChildren(t);
      assert t.Two? ==> Inorder(t) == [t.left.item] + [t.middle.item];
    }

    /** The first child of `p` is about to go: its successor is the new minimum below `p`. */
    method RenameMin(p: Node, holder: Node?, second: bool, ghost c: Ctx, ghost t: Tree)
      requires Attached(c, t, root) && Even(t) && !t.Tip? && t.left.Tip? && p == t.node &&
               (holder, second) == KeyHolder(c)
      modifies this`min_item, CtxRefs(c)
      ensures CtxHolds(c, NodeLink(p), Min(t.middle), NodeLink(root)) && Holds(t)
      ensures min_item == if Leftmost(c) then Some(Min(t.middle)) else old(min_item)
    {
      hide Inorder, Refs, CtxRefs, Distinct, CtxDistinct, Holds, CtxHolds, Min, Leftmost, KeyHolder, High, Even;
      Children(t);
      TipChildren(t);
      HighTop(c);
      CutApart(c);
      assert allocated(Refs(t));
      if holder != null {
        HighIn(c);
        SetMinKey(holder, second, p.middle.item, c, NodeLink(p), Min(t), NodeLink(root));
      } else {
        min_item := p.key_item1;
        MinFree(c, NodeLink(p), Min(t), Min(t.middle), NodeLink(root));
      }
    }

    lemma HighIn(c: Ctx)
      requires !High(c).Top?
      ensures High(c).node in CtxRefs(High(c))
    {
    }

    /** Of three children of `p`, the one on side `dir` goes. */
    method DropFields(p: Node, dir: int)
      requires p.link_kind == LeafLink && p.middle.ItemLink? && p.right.ItemLink? &&
               p.key_item1 == Some(p.middle.item) && p.key_item2 == Some(p.right.item)
      modifies p
      ensures if dir > 0 then p.Has(old(p.left), old(p.middle), Null, old(p.key_item1), None, LeafLink)
              else if dir == 0 then p.Has(old(p.left), old(p.right), Null, old(p.key_item2), None, LeafLink)
              else p.Has(old(p.middle), old(p.right), Null, old(p.key_item2), None, LeafLink)
    {
      if dir < 0 {
        p.left := ItemLink(p.key_item1.value);
      }
      if dir <= 0 {
        p.middle := ItemLink(p.key_item2.value);
        p.key_item1 := p.key_item2;
      }
      p.right := Null;
      p.key_item2 := None;
    }

    lemma TipChildren(t: Tree)
      requires !t.Tip? && t.left.Tip? && Even(t)
      ensures t.middle.Tip? && (t.Three? ==> t.right.Tip?) && Min(t.left) == t.left.item &&
              Min(t.middle) == t.middle.item
      ensures t.Three? ==> Min(t.right) == t.right.item
    {
    }

    /** The item on side `dir` of the lowest node `p` goes, and the tree is mended. */
    method RemoveLeaf(p: Node, dir: int, tos: int, holder: Node?, second: bool, ghost c: Ctx, ghost t: Tree)
      requires Recorded(c, tos) && Attached(c, t, root) && Even(t) && CtxEven(c, Levels(t)) &&
               (holder, second) == KeyHolder(c)
      requires !t.Tip? && t.left.Tip? && p == t.node && -1 <= dir <= 1 && (dir == 1 ==> t.Three?) &&
               (t.Two? ==> !c.Top?)
      modifies this`root, this`tree, this`min_item, Nodes(c, t)
      ensures Whole(tree, root) && Inorder(tree) == AllItems(c, Dropped(t, dir)) && Refs(tree) <= Nodes(c, t)
      ensures min_item == if dir == -1 && Leftmost(c) then Some(Min(t.middle)) else old(min_item)
    {
      hide Inorder, Before, After, AllItems, Refs, CtxRefs, Distinct, CtxDistinct, Even, CtxEven, Holds, CtxHolds, Min,
           Nodes, Leftmost, Levels, KeyHolder;
      Children(t);
      TipChildren(t);
      NodeIn(c, t);
      DroppedItems(c, t, dir);
      DroppedShape(c, t, dir);
      assert allocated(Refs(t)) && allocated(CtxRefs(c));
      if dir < 0 {
        RenameMin(p, holder, second, c, t);
      }
      if p.key_item2.Some? {
        DropFields(p, dir);
        DroppedHolds(t, dir);
        Assemble(c, Dropped(t, dir), root);
        tree := Plug(c, Dropped(t, dir));
      } else {
        Repair(p, if dir == 0 then p.left else p.middle, tos, c, Dropped(t, dir));
      }
    }

    lemma DroppedShape(c: Ctx, t: Tree, dir: int)
      requires CtxDistinct(c) && Distinct(t) && CtxRefs(c) !! Refs(t) && Even(t) && CtxEven(c, Levels(t))
      requires !t.Tip? && t.left.Tip? && -1 <= dir <= 1 && (dir == 1 ==> t.Three?)
      ensures var v := Dropped(t, dir);
              Distinct(v) && CtxRefs(c) !! Refs(v) && Even(v) && t.node !in CtxRefs(c) && Refs(v) <= Refs(t) &&
              (t.Three? ==> CtxEven(c, Levels(v))) &&
              (t.Two? ==> CtxEven(c, Levels(v) + 1) && t.node !in Nodes(c, v) && v.Tip? && Holds(v))
    {
    }

    lemma DroppedHolds(t: Tree, dir: int)
      requires t.Three? && t.left.Tip? && t.middle.Tip? && t.right.Tip? && -1 <= dir <= 1
      requires t.node.Has(if dir == -1 then Lnk(t.middle) else Lnk(t.left),
                          if dir == 1 then Lnk(t.middle) else Lnk(t.right), Null,
                          Some(if dir == 1 then t.middle.item else t.right.item), None, LeafLink)
      ensures Holds(Dropped(t, dir))
    {
    }

    /** Node `p0` has only the subtree at `merge0` left: borrows and merges up the path until every node
        has two children again, or the root is given up. */
    method Repair(p0: Node, merge0: Link, tos0: int, ghost c0: Ctx, ghost m0: Tree)
      requires Recorded(c0, tos0) && Under(c0, p0, m0, root) && CtxEven(c0, Levels(m0) + 1) && Even(m0)
      requires merge0 == Lnk(m0) && !c0.Top?
      modifies this`root, this`tree, p0, Nodes(c0, m0)
      ensures Whole(tree, root) && Inorder(tree) == AllItems(c0, m0) && Refs(tree) <= Nodes(c0, m0) + {p0}
    {
      hide Inorder, Before, After, AllItems, Refs, CtxRefs, Distinct, CtxDistinct, Even, CtxEven, Holds, CtxHolds, Min,
           Nodes, Levels, Under, Steps, Path;
      var p, merge, tos, done := p0, merge0, tos0, false;
      ghost var c, m := c0, m0;
      while tos != 0 && !done
        invariant Even(m) && AllItems(c, m) == AllItems(c0, m0)
        invariant if done then Attached(c, m, root) && CtxEven(c, Levels(m)) && Nodes(c, m) <= Nodes(c0, m0) + {p0}
                  else Recorded(c, tos) && Under(c, p, m, root) && CtxEven(c, Levels(m) + 1) && merge == Lnk(m) &&
                       Nodes(c, m) + {p} <= Nodes(c0, m0) + {p0} && (c.Top? ==> merge.NodeLink?)
      {
        LastStep(c, tos);
        NodesHold(c, m);
        tos := tos - 1;
        done, p, merge, c, m := RepairStep(stack[tos], p, merge, path_info[tos], c, m);
      }
      if !done {
        LastStep(c, tos);
        NewTop(c, p, m);
        root := merge.node;
      }
      Assemble(c, m, root);
      tree := Plug(c, m);
    }

    /** One level of mending: `p`, a child of `parent` on side `dir`, has only the subtree at `merge` left. */
    method RepairStep(parent: Node, p: Node, merge: Link, dir: int, ghost c: Ctx, ghost m: Tree)
        returns (done: bool, p': Node, merge': Link, ghost c': Ctx, ghost m': Tree)
      requires !c.Top? && Under(c, p, m, root) && CtxEven(c, Levels(m) + 1) && Even(m)
      requires parent == c.node && dir == Step(c) && merge == Lnk(m)
      modifies p, CtxRefs(c)
      ensures Even(m') && AllItems(c', m') == AllItems(c, m)
      ensures done ==> Attached(c', m', root) && CtxEven(c', Levels(m')) && Nodes(c', m') <= Nodes(c, m) + {p}
      ensures !done ==>
                c' == c.up && p' == parent && Under(c', p', m', root) && CtxEven(c', Levels(m') + 1) &&
                merge' == Lnk(m') && merge'.NodeLink? && Nodes(c', m') + {p'} <= Nodes(c, m) + {p}
    {
      hide Inorder, Before, After, AllItems, Refs, CtxRefs, Distinct, CtxDistinct, Even, CtxEven, Holds, CtxHolds, Min,
           Nodes, Levels, Under, Attached;
      Neighbours(c, p, m, root);
      SibIn(c, m);
      p', merge' := p, merge;
      var q := if dir == 0 then parent.left.node else parent.middle.node;
      if q.key_item2.Some? {
        Borrow(parent, p, q, merge, dir, c, m, root);
        done, c', m' := true, WithSib(c, Kept(c)), Refilled(c, p, m);
      } else {
        done := Merge(parent, p, q, merge, dir, c, m, root);
        m' := Joined(c, m);
        if done {
          c' := Narrow(c);
        } else {
          c', p', merge' := c.up, parent, NodeLink(q);
        }
      }
    }

    lemma SibIn(c: Ctx, m: Tree)
      requires !c.Top? && !Sib(c).Tip?
      ensures c.node in CtxRefs(c) && Sib(c).node in CtxRefs(c) && CtxRefs(c) <= Nodes(c, m)
    {
    }

    lemma NewTop(c: Ctx, p: Node, m: Tree)
      requires c.Top? && Under(c, p, m, root) && !m.Tip?
      ensures Attached(c, m, m.node) && CtxEven(c, Levels(m))
    {
    }

    method DeleteMin() returns (found: Option<Item>)
      requires Valid()
      modifies this, stack, Repr()
      ensures Valid() && Repr() <= old(Repr())
      ensures found == Least(old(Contents()))
      ensures Contents() == AfterDeleteMin(old(Contents()))
    {
      hide Inorder, Before, After, Refs, CtxRefs, Distinct, CtxDistinct, Even, CtxEven, Holds, CtxHolds, Levels, Min,
           AllItems, Nodes, Sorted, Guides, Plug, MapOf, Least, AfterDeleteMin;
      LeastOfSorted(Items());
      if n <= 2 {
        found := DeleteMinFew();
        return;
      }
      assert allocated(Repr());
      var p, tos; ghost var c, t;
      p, tos, c, t := LeftSpine();
      assert Valid() && Contents() == old(Contents());
      Children(t);
      found := Some(p.left.item);
      FirstIsMin(tree);
      FirstLeft(c, t, -1, p.left.item);
      DropFirst(c, t);
      TwoAreFew(c, t);
      DroppedItems(c, t, -1);
      n := n - 1;
      RemoveFirst(p, tos, c, t);
      FirstIsMin(tree);
    }

    method DeleteMinFew() returns (found: Option<Item>)
      requires Valid() && n <= 2
      modifies this`n, this`min_item, this`tree, Repr()
      ensures Valid() && Repr() <= old(Repr())
      ensures found == if old(Items()) == [] then None else Some(old(Items()[0]))
      ensures Items() == if old(Items()) == [] then [] else old(Items()[1..])
    {
      hide Inorder, Refs, Distinct, Even, Holds, Sorted, MapOf;
      FewItems();
      if n == 0 {
        return None;
      }
      found := Some(root.left.item);
      if n == 1 {
        root.left, min_item := Null, None;
        n := 0;
      } else {
        DropLeft();
      }
    }

    /** Walks down to the lowest node at the far left. */
    method LeftSpine() returns (p: Node, tos: int, ghost c: Ctx, ghost t: Tree)
      requires Valid() && n >= 2
      modifies stack
      ensures Stacked(c, tos) && Attached(c, t, root) && Plug(c, t) == tree && CtxEven(c, Levels(t)) && Even(t) &&
              Leftmost(c)
      ensures !t.Tip? && t.left.Tip? && p == t.node && AllItems(c, t) == Items() && Nodes(c, t) == Repr()
    {
      hide Inorder, Before, After, Refs, CtxRefs, Distinct, CtxDistinct, Even, CtxEven, Holds, CtxHolds, Levels, Min,
           AllItems, Nodes, Sorted, Guides, Plug;
      AtRoot(0);
      assert allocated(Refs(tree));
      c, t := Top, tree;
      p, tos := root, 0;
      while p.link_kind != LeafLink
        invariant Stacked(c, tos) && Plug(c, t) == tree && Whole(tree, root) && Holds(t) && Even(t) && Leftmost(c)
        invariant !t.Tip? && p == t.node
        decreases t
      {
        TakeApart(c, t, root);
        PathLength(c);
        Children(t);
        Deeper(t);
        DownFills(c, t, -1);
        DownPlug(c, t, -1);
        stack[tos] := p;
        p, tos := p.left.node, tos + 1;
        c, t := Down(c, t, -1), ChildOf(t, -1);
        TakeApart(c, t, root);
      }
      TakeApart(c, t, root);
      Children(t);
    }

    lemma FirstAndRest(a: Item, m: seq<Item>, r: seq<Item>, e: seq<Item>)
      ensures [] + ([a] + m + r) + e == [a] + (m + r + e)
      ensures [] + (m + r + e) == ([a] + (m + r + e))[1..]
    {
      var s := m + r + e;
      assert [] + ([a] + m + r) + e == ([a] + (m + r)) + e == [a] + s;
      assert [] + s == s == ([a] + s)[1..];
    }

    lemma DropFirst(c: Ctx, t: Tree)
      requires !t.Tip? && t.left.Tip? && Leftmost(c)
      ensures var s, d := AllItems(c, t), Down(c, t, -1);
              s != [] && s[0] == t.left.item && s[1..] == Before(d) + After(d) && ChildOf(t, -1) == Tip(t.left.item)
    {
      NothingBefore(c);
      DownSides(c, t, -1);
      var a, m, e := t.left.item, Inorder(t.middle), After(c);
      var r := if t.Three? then Inorder(t.right) else [];
      assert Inorder(t) == [a] + m + r;
      hide Inorder, Before, After, Down;
      FirstAndRest(a, m, r, e);
      Empty(m);
    }

    /** The first item of the lowest node `p` at the far left goes, and the tree is mended. */
    method RemoveFirst(p: Node, tos: int, ghost c: Ctx, ghost t: Tree)
      requires Stacked(c, tos) && Attached(c, t, root) && Even(t) && CtxEven(c, Levels(t)) && Leftmost(c)
      requires !t.Tip? && t.left.Tip? && p == t.node && (t.Two? ==> !c.Top?)
      modifies this`root, this`tree, this`min_item, Nodes(c, t)
      ensures Whole(tree, root) && Inorder(tree) == AllItems(c, Dropped(t, -1)) && Refs(tree) <= Nodes(c, t)
      ensures min_item == Some(Min(t.middle))
    {
      hide Inorder, Before, After, AllItems, Refs, CtxRefs, Distinct, CtxDistinct, Even, CtxEven, Holds, CtxHolds, Min,
           Nodes, Leftmost, Levels;
      Children(t);
      TipChildren(t);
      NodeIn(c, t);
      DroppedItems(c, t, -1);
      DroppedShape(c, t, -1);
      MinFree(c, NodeLink(p), Min(t), Min(t.middle), NodeLink(root));
      assert allocated(Refs(t)) && allocated(CtxRefs(c));
      min_item := p.key_item1;
      if p.key_item2.Some? {
        DropFields(p, -1);
        DroppedHolds(t, -1);
        Assemble(c, Dropped(t, -1), root);
        tree := Plug(c, Dropped(t, -1));
      } else {
        RepairMin(p, p.middle, tos, c, Dropped(t, -1));
      }
    }

    /** Mending after delete-min: every step of the path went left. */
    method RepairMin(p0: Node, merge0: Link, tos0: int, ghost c0: Ctx, ghost m0: Tree)
      requires Stacked(c0, tos0) && Under(c0, p0, m0, root) && CtxEven(c0, Levels(m0) + 1) && Even(m0)
      requires merge0 == Lnk(m0) && !c0.Top? && Leftmost(c0)
      modifies this`root, this`tree, p0, Nodes(c0, m0)
      ensures Whole(tree, root) && Inorder(tree) == AllItems(c0, m0) && Refs(tree) <= Nodes(c0, m0) + {p0}
    {
      hide Inorder, Before, After, AllItems, Refs, CtxRefs, Distinct, CtxDistinct, Even, CtxEven, Holds, CtxHolds, Min,
           Nodes, Levels, Under, Path, Leftmost;
      var p, merge, tos, done := p0, merge0, tos0, false;
      ghost var c, m := c0, m0;
      while tos != 0 && !done
        invariant Even(m) && AllItems(c, m) == AllItems(c0, m0)
        invariant if done then Attached(c, m, root) && CtxEven(c, Levels(m)) && Nodes(c, m) <= Nodes(c0, m0) + {p0}
                  else Stacked(c, tos) && Leftmost(c) && Under(c, p, m, root) && CtxEven(c, Levels(m) + 1) &&
                       merge == Lnk(m) &&
                       Nodes(c, m) + {p} <= Nodes(c0, m0) + {p0} && (c.Top? ==> merge.NodeLink?)
      {
        LastStep(c, tos);
        LeftmostUp(c);
        NodesHold(c, m);
        tos := tos - 1;
        done, p, merge, c, m := RepairStep(stack[tos], p, merge, -1, c, m);
      }
      if !done {
        LastStep(c, tos);
        NewTop(c, p, m);
        root := merge.node;
      }
      Assemble(c, m, root);
      tree := Plug(c, m);
    }

    lemma NodesHold(c: Ctx, t: Tree)
      ensures CtxRefs(c) <= Nodes(c, t)
    {
    }

    // ---------- Queries ----------

    method FindItem(key: Item) returns (found: Option<Item>)
      requires Valid()
      ensures Valid() && found == Lookup(old(Contents()), key.key)
    {
      hide Inorder, Before, After, Refs, CtxRefs, Distinct, CtxDistinct, Even, CtxEven, Holds, CtxHolds, Levels, Min,
           AllItems, Nodes, Sorted, Guides, Plug, MapOf;
      if n <= 1 {
        if n == 1 {
          OneItem(tree.item);
          if Compar(key, root.left.item) == 0 {
            return Some(root.left.item);
          }
        } else {
          OneItem(key);
        }
        return None;
      }
      AtRoot(key.key);
      ghost var c, t := Top, tree;
      var p := root;
      while p.link_kind != LeafLink
        invariant Plug(c, t) == tree && Whole(tree, root) && Holds(t) && Even(t) && !t.Tip? && p == t.node
        invariant Guides(c, t, key.key) && Sorted(Inorder(t))
        decreases t
      {
        Children(t);
        var dir, next;
        if p.key_item2.Some? && Compar(key, p.key_item2.value) >= 0 {
          dir, next := 1, p.right.node;
        } else if Compar(key, p.key_item1.value) >= 0 {
          dir, next := 0, p.middle.node;
        } else {
          dir, next := -1, p.left.node;
        }
        GuideDown(c, t, key.key, dir);
        DownPlug(c, t, dir);
        c, t := Down(c, t, dir), ChildOf(t, dir);
        p := next;
        TakeApart(c, t, root);
      }
      TakeApart(c, t, root);
      Children(t);
      var dir, item;
      if p.key_item2.Some? && Compar(key, p.key_item2.value) >= 0 {
        dir, item := 1, p.key_item2.value;
      } else if Compar(key, p.key_item1.value) >= 0 {
        dir, item := 0, p.key_item1.value;
      } else {
        dir, item := -1, p.left.item;
      }
      LeafItem(c, t, key.key, dir, item);
      if Compar(key, item) != 0 {
        Missing(Down(c, t, dir), item, key.key);
        return None;
      }
      Found(Down(c, t, dir), item);
      return Some(item);
    }

    method FindMinItem() returns (found: Option<Item>)
      requires Valid()
      ensures Valid() && found == Least(old(Contents()))
    {
      LeastOfSorted(Items());
      if n != 0 { FirstIsMin(tree); }
      found := min_item;
    }
  }
}
