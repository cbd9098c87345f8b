/** Runs of dictionary operations: the four dictionaries behind `dict_info_t` answer alike. */
module Dictionary {
  import opened Items
  import opened Wrappers
  import opened AvlTree
  import opened RedBlackTree
  import opened SearchTree
  import BinaryTree
  import opened TwoThreeTree

  /** One call through the dictionary interface; keys are looked up by an item carrying them. */
  datatype Op = Insert(item: Item) | Delete(key: Item) | DeleteMin | Find(key: Item) | FindMin

  /** What a call returns on the ordered map `m`. */
  ghost function Answer(m: Contents, op: Op): Option<Item> {
    match op
    case Insert(x) => Lookup(m, x.key)
    case Delete(k) => Lookup(m, k.key)
    case DeleteMin => Least(m)
    case Find(k) => Lookup(m, k.key)
    case FindMin => Least(m)
  }

  /** What a call leaves. */
  ghost function Next(m: Contents, op: Op): Contents {
    match op
    case Insert(x) => AfterInsert(m, x)
    case Delete(k) => m - {k.key}
    case DeleteMin => AfterDeleteMin(m)
    case _ => m
  }

  ghost function Final(m: Contents, ops: seq<Op>): Contents {
    if ops == [] then m else Next(Final(m, ops[..|ops| - 1]), ops[|ops| - 1])
  }

  /** The answers of a whole run. */
  ghost function Answers(m: Contents, ops: seq<Op>): seq<Option<Item>> {
    if ops == [] then [] else
      Answers(m, ops[..|ops| - 1]) + [Answer(Final(m, ops[..|ops| - 1]), ops[|ops| - 1])]
  }

  lemma RunStep(m: Contents, ops: seq<Op>, i: nat)
    requires i < |ops|
    ensures Answers(m, ops[..i + 1]) == Answers(m, ops[..i]) + [Answer(Final(m, ops[..i]), ops[i])]
    ensures Final(m, ops[..i + 1]) == Next(Final(m, ops[..i]), ops[i])
  {
    assert ops[..i + 1][..i] == ops[..i];
  }

  lemma SizeStep(m: Contents, op: Op)
    ensures |Next(m, op)| <= |m| + 1
  {
    hide Least, Lookup;
    match op {
      case Insert(x) => PutSize(m, x);
      case Delete(k) => DropSize(m, k.key);
      case DeleteMin =>
        var least := Least(m);
        if least.Some? { DropSize(m, least.value.key); }
      case _ =>
    }
  }

  lemma PutSize(m: Contents, x: Item)
    ensures |m[x.key := x]| <= |m| + 1
  {
    assert m[x.key := x].Keys == m.Keys + {x.key};
  }

  lemma DropSize(m: Contents, k: int)
    ensures |m - {k}| <= |m|
  {
    assert (m - {k}).Keys == m.Keys - {k};
  }

  // ---------- Counting the items ----------

  /** A new item can still be counted in a C int. */
  ghost predicate HasRoom(m: Contents, op: Op) {
    op.Insert? && op.item.key !in m ==> |m| < INT_MAX
  }

  /** No dictionary on the way holds more items than a C int can count. */
  ghost predicate Fits(ops: seq<Op>) {
    forall i | 0 <= i <= |ops| :: |Final(map[], ops[..i])| <= INT_MAX
  }

  lemma FitsRoom(ops: seq<Op>, i: nat)
    requires Fits(ops) && i < |ops|
    ensures HasRoom(Final(map[], ops[..i]), ops[i])
  {
    var m := Final(map[], ops[..i]);
    RunStep(map[], ops, i);
    assert |Final(map[], ops[..i + 1])| <= INT_MAX;
    if ops[i].Insert? && ops[i].item.key !in m {
      assert m[ops[i].item.key := ops[i].item].Keys == m.Keys + {ops[i].item.key};
    }
  }

  lemma {:induction false} SizeBound(ops: seq<Op>)
    ensures |Final(map[], ops)| <= |ops|
  {
    if ops != [] {
      SizeBound(ops[..|ops| - 1]);
      SizeStep(Final(map[], ops[..|ops| - 1]), ops[|ops| - 1]);
    }
  }

  /** In particular, short runs fit. */
  lemma ShortFits(ops: seq<Op>)
    requires |ops| <= INT_MAX
    ensures Fits(ops)
  {
    forall i | 0 <= i <= |ops| ensures |Final(map[], ops[..i])| <= INT_MAX {
      SizeBound(ops[..i]);
    }
  }

  // ---------- What the answers of a run are ----------

  lemma {:induction false} AnswerAt(ops: seq<Op>, i: nat)
    requires i < |ops|
    ensures |Answers(map[], ops)| == |ops| && Answers(map[], ops)[i] == Answer(Final(map[], ops[..i]), ops[i])
  {
    var n := |ops| - 1;
    AnswersSize(ops);
    AnswersSize(ops[..n]);
    hide Answer;
    if i < n {
      AnswerAt(ops[..n], i);
      assert ops[..n][..i] == ops[..i];
    }
  }

  lemma {:induction false} AnswersSize(ops: seq<Op>)
    ensures |Answers(map[], ops)| == |ops|
  {
    hide Answer;
    if ops != [] { AnswersSize(ops[..|ops| - 1]); }
  }

  /** The call at `h` takes key `k` away. */
  ghost predicate Takes(op: Op, a: Option<Item>, k: int) {
    (op.Delete? && op.key.key == k) || (op.DeleteMin? && a.Some? && a.value.key == k)
  }

  /** The item that call `i` inserted is still there before call `j`. */
  ghost predicate Live(ops: seq<Op>, a: seq<Option<Item>>, i: int, j: int)
    requires |a| == |ops|
  {
    0 <= i < j <= |ops| && ops[i].Insert? && a[i] == None &&
    forall h | i < h < j :: !Takes(ops[h], a[h], ops[i].item.key)
  }

  /** The ordered map holds the items that are still there. */
  ghost predicate IsLive(ops: seq<Op>, a: seq<Option<Item>>, m: Contents, j: int)
    requires |a| == |ops|
  {
    (forall i | Live(ops, a, i, j) :: ops[i].item.key in m && m[ops[i].item.key] == ops[i].item) &&
    (forall k | k in m :: exists i :: Live(ops, a, i, j) && ops[i].item.key == k)
  }

  lemma KeyOf(ops: seq<Op>, a: seq<Option<Item>>, m: Contents, j: int, k: int) returns (i: int)
    requires |a| == |ops| && IsLive(ops, a, m, j) && k in m
    ensures Live(ops, a, i, j) && ops[i].item.key == k && m[k] == ops[i].item
  {
    i :| Live(ops, a, i, j) && ops[i].item.key == k;
  }

  lemma LiveOn(ops: seq<Op>, a: seq<Option<Item>>, i: int, j: int)
    requires |a| == |ops| && 0 <= j < |ops|
    ensures Live(ops, a, i, j + 1) <==>
            (i == j && ops[j].Insert? && a[j] == None) || (Live(ops, a, i, j) && !Takes(ops[j], a[j], ops[i].item.key))
  {
  }

  /** What a call does to the map, key by key. */
  lemma NextAt(m: Contents, op: Op, k: int)
    requires forall l | l in m :: m[l].key == l
    ensures k in Next(m, op) <==>
            (op.Insert? && Answer(m, op) == None && op.item.key == k) || (k in m && !Takes(op, Answer(m, op), k))
    ensures k in Next(m, op) ==>
              Next(m, op)[k] == if op.Insert? && Answer(m, op) == None && op.item.key == k then op.item else m[k]
  {
    hide Least;
  }

  lemma LiveStep(ops: seq<Op>, a: seq<Option<Item>>, m: Contents, j: int)
    requires |a| == |ops| && 0 <= j < |ops| && IsLive(ops, a, m, j) && a[j] == Answer(m, ops[j])
    ensures IsLive(ops, a, Next(m, ops[j]), j + 1)
  {
    var m' := Next(m, ops[j]);
    forall l | l in m ensures m[l].key == l {
      var i := KeyOf(ops, a, m, j, l);
    }
    forall i | Live(ops, a, i, j + 1) ensures ops[i].item.key in m' && m'[ops[i].item.key] == ops[i].item {
      LiveOn(ops, a, i, j);
      NextAt(m, ops[j], ops[i].item.key);
      Fresh(ops, m, j);
    }
    forall k | k in m' ensures exists i :: Live(ops, a, i, j + 1) && ops[i].item.key == k {
      NextAt(m, ops[j], k);
      if k in m && !Takes(ops[j], a[j], k) {
        var i := KeyOf(ops, a, m, j, k);
        LiveOn(ops, a, i, j);
      } else {
        LiveOn(ops, a, j, j);
      }
    }
  }

  lemma Fresh(ops: seq<Op>, m: Contents, j: int)
    requires 0 <= j < |ops|
    ensures ops[j].Insert? && Answer(m, ops[j]) == None ==> ops[j].item.key !in m
  {
  }

  lemma {:induction false} FinalIsLive(ops: seq<Op>, j: nat)
    requires j <= |ops|
    ensures |Answers(map[], ops)| == |ops| && IsLive(ops, Answers(map[], ops), Final(map[], ops[..j]), j)
  {
    AnswersSize(ops);
    if j > 0 {
      FinalIsLive(ops, j - 1);
      AnswerAt(ops, j - 1);
      RunStep(map[], ops, j - 1);
      hide IsLive, Answers, Final, Answer, Next;
      LiveStep(ops, Answers(map[], ops), Final(map[], ops[..j - 1]), j - 1);
    }
  }

  lemma {:induction false} LeastKey(s: set<int>, x: int) returns (k: int)
    requires x in s
    ensures k in s && forall y | y in s :: k <= y
    decreases |s|
  {
    if y: int :| y in s && y < x {
      k := LeastKey(s - {x}, y);
      forall z | z in s ensures k <= z {
        assert z == x || z in s - {x};
      }
    } else {
      k := x;
      forall z | z in s ensures k <= z {
      }
    }
  }

  lemma LeastThere(m: Contents, x: int)
    requires x in m && forall l | l in m :: m[l].key == l
    ensures Least(m).Some? && IsLeast(m, Least(m).value)
  {
    var k := LeastKey(m.Keys, x);
    assert IsLeast(m, m[k]);
    LeastUnique(m, m[k]);
  }

  /** What call `j` of a run answers, told by the calls and answers before it alone.  An item is there if some
      insert of it answered that its key was missing, and no later delete of that key and no later delete_min
      that answered with that key took it away. */
  lemma AnswersAre(ops: seq<Op>, j: nat)
    requires j < |ops|
    ensures |Answers(map[], ops)| == |ops|
    ensures var a, op := Answers(map[], ops), ops[j];
            var there := set i | 0 <= i < j && ops[i].Insert? && a[i] == None &&
                                 forall h | i < h < j ::
                                   !(ops[h].Delete? && ops[h].key.key == ops[i].item.key) &&
                                   !(ops[h].DeleteMin? && a[h].Some? && a[h].value.key == ops[i].item.key);
            if op.FindMin? || op.DeleteMin? then
              (there == {} ==> a[j] == None) &&
              (there != {} ==>
                 exists i :: i in there && a[j] == Some(ops[i].item) &&
                             forall l | l in there :: ops[i].item.key <= ops[l].item.key)
            else
              var k := if op.Insert? then op.item.key else op.key.key;
              (forall i | i in there && ops[i].item.key == k :: a[j] == Some(ops[i].item)) &&
              ((forall i | i in there :: ops[i].item.key != k) ==> a[j] == None)
  {
    FinalIsLive(ops, j);
    AnswerAt(ops, j);
    var a, op, m := Answers(map[], ops), ops[j], Final(map[], ops[..j]);
    hide Answers, Final, Least, IsLeast;
    var there := set i | 0 <= i < j && ops[i].Insert? && a[i] == None &&
                         forall h | i < h < j ::
                           !(ops[h].Delete? && ops[h].key.key == ops[i].item.key) &&
                           !(ops[h].DeleteMin? && a[h].Some? && a[h].value.key == ops[i].item.key);
    assert forall i :: i in there <==> Live(ops, a, i, j);
    hide Live;
    if op.FindMin? || op.DeleteMin? {
      LeastAnswer(ops, a, m, j, there);
    } else {
      var k := if op.Insert? then op.item.key else op.key.key;
      if k in m { var i := KeyOf(ops, a, m, j, k); }
    }
  }

  lemma LeastAnswer(ops: seq<Op>, a: seq<Option<Item>>, m: Contents, j: int, there: set<int>)
    requires |a| == |ops| && IsLive(ops, a, m, j) && forall i :: i in there <==> Live(ops, a, i, j)
    ensures there == {} ==> Least(m) == None
    ensures there != {} ==>
              exists i :: i in there && Least(m) == Some(ops[i].item) &&
                          forall l | l in there :: ops[i].item.key <= ops[l].item.key
  {
    forall l | l in m ensures m[l].key == l && there != {} {
      var i := KeyOf(ops, a, m, j, l);
    }
    if x :| x in m {
      LeastThere(m, x);
      var i := KeyOf(ops, a, m, j, Least(m).value.key);
      assert i in there && Least(m) == Some(ops[i].item);
    } else {
      assert there == {} by {
        forall i ensures i !in there {
        }
      }
      assert Least(m) == None;
    }
  }

  /** What was taken away is gone until it is inserted again. */
  lemma TakenIsGone(ops: seq<Op>, i: nat, j: nat)
    requires i < j < |ops| && (ops[i].DeleteMin? || ops[i].Delete?) && ops[j].Find?
    requires |Answers(map[], ops)| == |ops| && Answers(map[], ops)[i].Some?
    requires ops[j].key.key == Answers(map[], ops)[i].value.key
    requires forall h | i < h < j && ops[h].Insert? :: ops[h].item.key != ops[j].key.key
    ensures Answers(map[], ops)[j] == None
  {
    FinalIsLive(ops, i);
    AnswerAt(ops, i);
    FinalIsLive(ops, j);
    AnswerAt(ops, j);
    var a, k := Answers(map[], ops), ops[j].key.key;
    var m, n := Final(map[], ops[..i]), Final(map[], ops[..j]);
    hide Answers, Final, Least;
    if ops[i].Delete? && ops[i].key.key in m {
      var l := KeyOf(ops, a, m, i, ops[i].key.key);
    }
    assert Takes(ops[i], a[i], k);
    if k in n {
      var l := KeyOf(ops, a, n, j, k);
      assert false;
    }
  }

  // ---------- One call on each dictionary ----------

  method OnBst(t: Bst, op: Op) returns (answer: Option<Item>, ghost news: set<object>)
    requires t.Valid()
    modifies t, BinaryTree.Refs(t.tree)
    ensures t.Valid() && fresh(news) && BinaryTree.Refs(t.tree) <= old(BinaryTree.Refs(t.tree)) + news
    ensures answer == Answer(old(t.Contents()), op) && t.Contents() == Next(old(t.Contents()), op)
  {
    hide Lookup, Least, AfterInsert, AfterDeleteMin, BinaryTree.Refs, MapOf;
    match op {
      case Insert(x) => answer := t.Insert(x);
      case Delete(k) => answer := t.Delete(k);
      case DeleteMin => answer := t.DeleteMin();
      case Find(k) => answer := t.FindItem(k);
      case FindMin => answer := t.FindMinItem();
    }
    news := BinaryTree.Refs(t.tree) - old(BinaryTree.Refs(t.tree));
  }

  method OnAvl(t: Avl, op: Op) returns (answer: Option<Item>, ghost news: set<object>)
    requires t.Valid() && HasRoom(t.Contents(), op)
    modifies t, t.stack, t.path_info, BinaryTree.Refs(t.tree)
    ensures t.Valid() && fresh(news) && BinaryTree.Refs(t.tree) <= old(BinaryTree.Refs(t.tree)) + news
    ensures answer == Answer(old(t.Contents()), op) && t.Contents() == Next(old(t.Contents()), op)
  {
    hide Lookup, Least, AfterInsert, AfterDeleteMin, BinaryTree.Refs, MapOf;
    MapSize(BinaryTree.Inorder(t.tree));
    match op {
      case Insert(x) => answer := t.Insert(x);
      case Delete(k) => answer := t.Delete(k);
      case DeleteMin => answer := t.DeleteMin();
      case Find(k) => answer := t.FindItem(k);
      case FindMin => answer := t.FindMinItem();
    }
    news := BinaryTree.Refs(t.tree) - old(BinaryTree.Refs(t.tree));
  }

  method OnRbTree(t: RbTree, op: Op) returns (answer: Option<Item>, ghost news: set<object>)
    requires t.Valid() && HasRoom(t.Contents(), op)
    modifies t, t.stack, BinaryTree.Refs(t.tree)
    ensures t.Valid() && fresh(news) && BinaryTree.Refs(t.tree) <= old(BinaryTree.Refs(t.tree)) + news
    ensures answer == Answer(old(t.Contents()), op) && t.Contents() == Next(old(t.Contents()), op)
  {
    hide Lookup, Least, AfterInsert, AfterDeleteMin, BinaryTree.Refs, MapOf;
    MapSize(BinaryTree.Inorder(t.tree));
    match op {
      case Insert(x) => answer := t.Insert(x);
      case Delete(k) => answer := t.Delete(k);
      case DeleteMin => answer := t.DeleteMin();
      case Find(k) => answer := t.FindItem(k);
      case FindMin => answer := t.FindMinItem();
    }
    news := BinaryTree.Refs(t.tree) - old(BinaryTree.Refs(t.tree));
  }

  method OnTwoThree(t: TwoThree, op: Op) returns (answer: Option<Item>, ghost news: set<object>)
    requires t.Valid() && HasRoom(t.Contents(), op)
    modifies t, t.stack, t.path_info, t.Repr()
    ensures t.Valid() && fresh(news) && t.Repr() <= old(t.Repr()) + news
    ensures answer == Answer(old(t.Contents()), op) && t.Contents() == Next(old(t.Contents()), op)
  {
    hide Lookup, Least, AfterInsert, AfterDeleteMin, TwoThree.Repr, MapOf;
    MapSize(t.Items());
    match op {
      case Insert(x) => answer := t.Insert(x);
      case Delete(k) => answer := t.Delete(k);
      case DeleteMin => answer := t.DeleteMin();
      case Find(k) => answer := t.FindItem(k);
      case FindMin => answer := t.FindMinItem();
    }
    news := t.Repr() - old(t.Repr());
  }

  // ---------- A whole run ----------

  /** Runs the same operations on a fresh dictionary of each kind: all four give, call by call, the
      answers of the ordered map. */
  method RunAll(ops: seq<Op>)
      returns (bst: seq<Option<Item>>, avl: seq<Option<Item>>, rb: seq<Option<Item>>, two3: seq<Option<Item>>)
    requires Fits(ops)
    ensures bst == avl == rb == two3 == Answers(map[], ops)
  {
    bst := RunBst(ops);
    avl := RunAvl(ops);
    rb := RunRbTree(ops);
    two3 := RunTwoThree(ops);
  }

  method RunBst(ops: seq<Op>) returns (answers: seq<Option<Item>>)
    ensures answers == Answers(map[], ops)
  {
    hide MapOf, Answer, Next, BinaryTree.Refs;
    var t := new Bst();
    ghost var mine: set<object> := BinaryTree.Refs(t.tree);
    answers := [];
    for i := 0 to |ops|
      invariant fresh(t) && fresh(mine) && BinaryTree.Refs(t.tree) <= mine
      invariant t.Valid() && t.Contents() == Final(map[], ops[..i]) && answers == Answers(map[], ops[..i])
    {
      RunStep(map[], ops, i);
      var a; ghost var news;
      a, news := OnBst(t, ops[i]);
      mine := mine + news;
      answers := answers + [a];
    }
    assert ops[..|ops|] == ops;
  }

  method RunAvl(ops: seq<Op>) returns (answers: seq<Option<Item>>)
    requires Fits(ops)
    ensures answers == Answers(map[], ops)
  {
    hide MapOf, Answer, Next, BinaryTree.Refs, HasRoom, Fits;
    var t := new Avl();
    ghost var mine: set<object> := BinaryTree.Refs(t.tree);
    answers := [];
    for i := 0 to |ops|
      invariant fresh(t) && fresh(mine) && BinaryTree.Refs(t.tree) <= mine && fresh(t.stack) && fresh(t.path_info)
      invariant t.Valid() && t.Contents() == Final(map[], ops[..i]) && answers == Answers(map[], ops[..i])
    {
      RunStep(map[], ops, i);
      FitsRoom(ops, i);
      var a; ghost var news;
      a, news := OnAvl(t, ops[i]);
      mine := mine + news;
      answers := answers + [a];
    }
    assert ops[..|ops|] == ops;
  }

  method RunRbTree(ops: seq<Op>) returns (answers: seq<Option<Item>>)
    requires Fits(ops)
    ensures answers == Answers(map[], ops)
  {
    hide MapOf, Answer, Next, BinaryTree.Refs, HasRoom, Fits;
    var t := new RbTree();
    ghost var mine: set<object> := BinaryTree.Refs(t.tree);
    answers := [];
    for i := 0 to |ops|
      invariant fresh(t) && fresh(mine) && BinaryTree.Refs(t.tree) <= mine && fresh(t.stack)
      invariant t.Valid() && t.Contents() == Final(map[], ops[..i]) && answers == Answers(map[], ops[..i])
    {
      RunStep(map[], ops, i);
      FitsRoom(ops, i);
      var a; ghost var news;
      a, news := OnRbTree(t, ops[i]);
      mine := mine + news;
      answers := answers + [a];
    }
    assert ops[..|ops|] == ops;
  }

  method RunTwoThree(ops: seq<Op>) returns (answers: seq<Option<Item>>)
    requires Fits(ops)
    ensures answers == Answers(map[], ops)
  {
    hide MapOf, Answer, Next, TwoThree.Repr, HasRoom, Fits;
    var t := new TwoThree();
    ghost var mine: set<object> := t.Repr();
    answers := [];
    for i := 0 to |ops|
      invariant fresh(t) && fresh(mine) && t.Repr() <= mine && fresh(t.stack) && fresh(t.path_info)
      invariant t.Valid() && t.Contents() == Final(map[], ops[..i]) && answers == Answers(map[], ops[..i])
    {
      RunStep(map[], ops, i);
      FitsRoom(ops, i);
      var a; ghost var news;
      a, news := OnTwoThree(t, ops[i]);
      mine := mine + news;
      answers := answers + [a];
    }
    assert ops[..|ops|] == ops;
  }
}
