# Verification of the ItaliOS algorithm library and of the cheapos kernel

A Dafny model of the parts of the ItaliOS and cheapos code in which the hard algorithms are, with proofs of
what they are for.  The code keeps its form: mutable nodes, arrays and objects, explicit path stacks, loops
with their early exits.  Each structure has an abstract view (an ordered map, a queue, a graph relation) and every
operation is proved against that view.

| file | what it holds |
|---|---|
| `Items.dfy` | items, their comparison, the finite ordered map all dictionaries refine |
| `BinaryTree.dfy` | trees in the heap, paths through them and rotations, shared by the three binary trees |
| `Bst.dfy`, `Avl.dfy`, `RbTree.dfy`, `Tree23.dfy` | the four dictionaries (`italos/lib`) |
| `Dictionary.dfy` | runs of calls on all four |
| `Graphs.dfy`, `Scc.dfy`, `Bfs.dfy` | directed graphs, Tarjan's strongly connected components, breadth first search |
| `BHeap.dfy`, `Mst.dfy` | the binary heap with its position index, and Prim's algorithm running on it |
| `Sort.dfy` | heapsort with bottom-up sifting, the alternating mergesort |
| `Ttt.dfy`, `TttGame.dfy` | tic-tac-toe with alpha-beta search, and whole games: the computer never loses |
| `PidCoda.dfy`, `Kernel.dfy` | pid queues, scheduler, kernel wait table, semaphores, exit, fork, exec and kill |
| `Fat12.dfy` | reading and writing entries of a FAT12 table |
| `Cache.dfy` | the sector cache |
| `Counting.dfy`, `Sequences.dfy`, `Wrappers.dfy` | pigeonhole and counting, lemmas on sequences, `Option` |

Kernel routines run with interrupts off, so each is one step of a state machine; the steps as values (`Next`) are what
the methods of `Kernel` are proved to take, and runs are sequences of steps.

Where the code and its comments or promises differ, the code is followed:

- First come, first served on semaphores can be broken by a kill: the search of `syscall_kill` turns the wait queue
  at the place where it finds its pid.  `KillOvertakes` is a run in which it happens, `KillKeepsOrder` the exact
  condition for one kill, and `RunFair` the order of service in all runs that meet it.
- A failing read in the middle of `setfat12` can leave half an entry written; `TornWhen` and `TornIs` say when and what.
- Writing and reading back a FAT12 entry gives the number back only for some numbers; `ComesBack` says which.
- `sc` takes a start vertex and overwrites it, so the model has none.
- `mst_prim` says that it needs more than one vertex; it is right for one vertex, too.
- The guards `(nn<2) && (nn>=(2880/512))` of the FAT12 functions can never hold and are not in the model.

## Model

| member | source | states |
|---|---|---|
| `Dictionary.RunAll` | italos/lib/avl.c:893-901 | For every sequence of insert, delete, delete_min, find and find_min calls on empty dictionaries in which no dictionary ever holds more items than a C int can count, however long the sequence is, the four implementations return the same answers, and these are the answers of one finite ordered map |
| `Dictionary.RunBst` | italos/lib/bst.c:348-356 | Every run of the plain search tree, through its interface table, answers as the ordered map does |
| `Dictionary.RunAvl` | italos/lib/avl.c:867-901 | Every such run of the AVL tree answers as the ordered map does |
| `Dictionary.RunRbTree` | italos/lib/rbtree.c:817-851 | Every such run of the red-black tree answers as the ordered map does |
| `Dictionary.RunTwoThree` | italos/lib/tree23.c:1135-1169 | Every such run of the 2-3 tree answers as the ordered map does |
| `Dictionary.ShortFits` | italos/lib/avl.c:142-143 | A sequence of no more calls than a C int can count never makes a dictionary larger than that |
| `Dictionary.AnswersAre` | italos/lib/avl.c:867-901 | What every call of a run answers, said of the calls and answers before it alone: an item is there if it was inserted when its key was not and neither a delete of the key nor a delete_min that returned the key came since; find, insert and delete return the item there, find_min and delete_min the least one there, and nothing if there is none |
| `Dictionary.TakenIsGone` | italos/lib/avl.c:872-883 | What delete or delete_min returned is not found again until its key is inserted again |
| `SearchTree.Bst.Insert` | italos/lib/bst.c:65-109 | A key that is there already is reported and nothing changes; otherwise exactly the new item is added, and the key order stays strict |
| `SearchTree.Bst.Delete` | italos/lib/bst.c:176-263 | The item bound to the key is returned, or nothing; afterwards exactly that key is gone, also when a node with two children is replaced by its successor |
| `SearchTree.Bst.DeleteMin` | italos/lib/bst.c:270-304 | The least item is returned and exactly that one is gone; an empty tree returns nothing |
| `SearchTree.Bst.FindItem` | italos/lib/bst.c:116-144 | Returns the item bound to the key exactly when there is one |
| `SearchTree.Bst.FindMinItem` | italos/lib/bst.c:151-169 | Returns the item with the least key, nothing for an empty tree |
| `BinaryTree.Find` | italos/lib/bst.c:116-144 | The loop shared by the three binary trees: descending by comparisons finds what the ordered map binds to the key |
| `BinaryTree.FindMin` | italos/lib/bst.c:151-169 | The loop shared by the three binary trees: going left all the way ends at the least item |
| `AvlTree.Avl.Insert` | italos/lib/avl.c:70-299 | Keeps strict key order and every balance field equal to height(right) - height(left) and within -1..1; reports an existing key, else adds exactly the new item; the stacks never overflow |
| `AvlTree.Avl.RebalanceInsert` | italos/lib/avl.c:145-296 | Walking the recorded path back from a subtree that grew by one level restores all balance fields and changes no item; leaving the loop early is right because the height is the old one |
| `AvlTree.Avl.RotateGrown` | italos/lib/avl.c:166-292 | The single or double rotation gives a balanced subtree as high as before the insertion, with the same items and nodes |
| `AvlTree.Grow` | italos/lib/avl.c:150-175 | What growing by one level does to a parent: it grows too, or keeps its height (the early exit), or leans over by exactly two |
| `AvlTree.Avl.Delete` | italos/lib/avl.c:366-670 | Returns the item bound to the key or nothing; exactly that key is gone, order and all balance fields are restored |
| `AvlTree.Avl.ReplaceByMin` | italos/lib/avl.c:445-487 | A node with two children is replaced by its successor on the tree and on the stack: the items are the old ones without its own, and the recorded path is the path to the subtree that shrank |
| `AvlTree.Avl.RebalanceDelete` | italos/lib/avl.c:494-667 | Walking the recorded path back from a subtree that lost one level restores all balance fields and loses no item |
| `AvlTree.Avl.RotateShrunk` | italos/lib/avl.c:517-664 | The rotation balances the subtree, and the loop stops exactly when the rotation gave it its old height |
| `AvlTree.Shrink` | italos/lib/avl.c:500-526 | What losing one level does to a parent: it keeps its height (the early exit), or shrinks too, or leans over by exactly two |
| `AvlTree.SingleBalances` | italos/lib/avl.c:537-588 | A subtree leaning by two whose heavy child does not lean the other way is balanced by the single rotation, and its height is the old one exactly when that child was even |
| `AvlTree.DoubleBalances` | italos/lib/avl.c:591-664 | When the heavy child leans the other way, its inner child exists and the double rotation balances all three nodes, one level lower |
| `AvlTree.Avl.DeleteMin` | italos/lib/avl.c:677-849 | Returns the least item, and exactly that one is gone; all balance fields are restored |
| `AvlTree.Avl.RebalanceDeleteMin` | italos/lib/avl.c:723-846 | The shorter loop, which knows that every step went left, restores the balance as the general one does |
| `AvlTree.Avl.FindItem` | italos/lib/avl.c:306-334 | Returns the item bound to the key exactly when there is one |
| `AvlTree.Avl.FindMinItem` | italos/lib/avl.c:341-359 | Returns the item with the least key, nothing for an empty tree |
| `AvlTree.BalancedSize` | italos/lib/avl.c:82-135 | A balanced tree of height h has at least Fib(h+2) - 1 items |
| `AvlTree.StackSuffices` | italos/lib/avl.c:25-26 | A balanced tree with no more items than a C int can count is lower than the 1000 entries of the stacks |
| `RedBlackTree.RbTree.Insert` | italos/lib/rbtree.c:74-167 | Keeps strict key order, the black root, no red node with a red child and equal black counts; reports an existing key, else adds exactly the new item; the stack never overflows |
| `RedBlackTree.RbTree.RebalanceInsert` | italos/lib/rbtree.c:126-164 | Two reds in a row below the end of the recorded path are removed by recolouring upwards and at most one restructuring, with all items kept |
| `RedBlackTree.RestructuredInsert` | italos/lib/rbtree.c:136-149 | With a black uncle, restructuring and tinting gives a legal subtree of the old black height with a black root |
| `RedBlackTree.RecolouredInsert` | italos/lib/rbtree.c:152-160 | With a red uncle, recolouring keeps the black height and moves the conflict up two levels, or ends it at the root |
| `RedBlackTree.RbTree.Delete` | italos/lib/rbtree.c:233-509 | Returns the item bound to the key or nothing; exactly that key is gone and all colour rules hold again |
| `RedBlackTree.RbTree.FixBlack` | italos/lib/rbtree.c:396-439 | Cases 1 and 2: with a black sibling the missing black level is restored or moves one level up; it is always restored below a red parent |
| `RedBlackTree.RbTree.FixRed` | italos/lib/rbtree.c:440-498 | Case 3: with a red sibling, restructuring, pushing the sibling back on the stack as the new parent and one more case 1 or 2 always restore the missing black level |
| `RedBlackTree.RestructuredDelete` | italos/lib/rbtree.c:398-416 | Case 1 gives a legal subtree with the colour of the old root and the old black height |
| `RedBlackTree.RedSibling` | italos/lib/rbtree.c:441-469 | After the rotation of case 3 the short subtree hangs below a red parent with a black sibling, at the end of the path lengthened by the sibling |
| `RedBlackTree.RbTree.Restructure` | italos/lib/rbtree.c:717-799 | All forms of rbtree_restructure and rbtree_restructure2: the middle one of three nodes in key order is lifted, items and nodes stay, and the parent or the root now leads to it |
| `RedBlackTree.RbTree.DeleteMin` | italos/lib/rbtree.c:516-709 | Returns the least item, exactly that one is gone and all colour rules hold again |
| `RedBlackTree.RbTree.FindItem` | italos/lib/rbtree.c:174-201 | Returns the item bound to the key exactly when there is one |
| `RedBlackTree.RbTree.FindMinItem` | italos/lib/rbtree.c:208-226 | Returns the item with the least key, nothing for an empty tree |
| `RedBlackTree.HeightLogarithmic` | italos/lib/rbtree.c:88-110 | 2 to the power h/2, rounded up, is at most n + 1 for a tree of height h with n items |
| `RedBlackTree.StackSuffices` | italos/lib/rbtree.c:30-31 | With no more items than a C int can count, no path, not even one lengthened by case 3, overflows the stack |
| `TwoThreeTree.TwoThree.Insert` | italos/lib/tree23.c:73-378 | All items stay at one depth below nodes of two or three children, each key is exactly the least item of its subtree, min_item is the least item of all; reports an existing key, else adds exactly the new item |
| `TwoThreeTree.TwoThree.InsertFew` | italos/lib/tree23.c:87-110 | The root that is not a proper node yet, with no or one item |
| `TwoThreeTree.TwoThree.Spread` | italos/lib/tree23.c:254-377 | Linking the halves of split nodes in, level by level, up to a new root adds exactly the subtree split off and keeps the tree even and its keys exact |
| `TwoThreeTree.InsertBeside` | italos/lib/tree23.c:264-361 | One level: a node takes the new child right after the one the path leads to, or is split into two nodes of two children whose keys are exact |
| `TwoThreeTree.TwoThree.Delete` | italos/lib/tree23.c:471-923 | Returns the item bound to the key or nothing; exactly that key is gone, and depth, child counts, keys and min_item are exact again |
| `TwoThreeTree.TwoThree.RenameMin` | italos/lib/tree23.c:623-628 | When the first child of a lowest node goes, the one key that named it, found on the way down, or else min_item, is replaced by its successor, and no other key needs to change |
| `TwoThreeTree.TwoThree.Repair` | italos/lib/tree23.c:648-922 | A node left with one child borrows from its neighbour or is merged into it, level by level, until a parent keeps two children or the root is given up; no item is lost |
| `TwoThreeTree.TwoThree.RepairStep` | italos/lib/tree23.c:777-914 | One level of that: afterwards the tree is whole, or the same situation one level higher |
| `TwoThreeTree.TwoThree.DeleteMin` | italos/lib/tree23.c:930-1117 | Returns the least item, exactly that one is gone, and min_item is the next one |
| `TwoThreeTree.TwoThree.RepairMin` | italos/lib/tree23.c:992-1116 | The shorter repair of delete_min, in which the node is always the left child |
| `TwoThreeTree.TwoThree.FindItem` | italos/lib/tree23.c:386-452 | Returns the item bound to the key exactly when there is one |
| `TwoThreeTree.TwoThree.FindMinItem` | italos/lib/tree23.c:460-463 | min_item is the least item, nothing for an empty tree |
| `TwoThreeTree.TwoThree.Search` | italos/lib/tree23.c:543-567 | The descent ends at the lowest node that holds the key if any does; the stacks hold the path, and the remembered key is the one that names the least item of the subtree reached |
| `TwoThreeTree.EvenSize` | italos/lib/tree23.c:120-133 | A tree with L levels of nodes has at least 2^L items |
| `TwoThreeTree.StackSuffices` | italos/lib/tree23.c:23-26 | With no more items than a C int can count there are at most 30 levels, so the stacks suffice |
| `StrongComponents.Sc` | italos/lib/sc.c:66-130 | For every directed graph with at least one vertex: each vertex is written once, the slices cover the vertices, two vertices share a slice exactly when each reaches the other, every edge between slices leads from a later to an earlier one, and the remaining slice entries are -1 |
| `StrongComponents.SlicesAreClasses` | italos/lib/sc.c:50-65 | Slices that are mutually reachable inside and whose edges lead to the same or an earlier slice are exactly the classes of mutual reachability |
| `StrongComponents.Search.ScRecursive` | italos/lib/sc.c:137-201 | The search from an unvisited vertex keeps the invariant, terminates, extends the stack and the result only, and returns a low-link that is the visit number of a stack vertex it reaches and bounds all edges back |
| `StrongComponents.Search.Follow` | italos/lib/sc.c:162-180 | One edge: the low-link stays a reached stack number and a bound for the edges seen, whether the edge leads to an unvisited vertex, to the stack or to a finished component |
| `StrongComponents.Search.TakeUnvisited` | italos/lib/sc.c:148-152 | Moving the last unvisited vertex into the freed place keeps unvisited and p inverse to each other |
| `StrongComponents.Search.PopComponent` | italos/lib/sc.c:182-200 | The stack from v on is written, top first, as one more slice and is no longer on the stack |
| `StrongComponents.FinishKeep` | italos/lib/sc.c:182-183 | A low-link below the visit number: the component of v waits for an earlier stack vertex, and the invariant holds with v finished |
| `StrongComponents.FinishPop` | italos/lib/sc.c:182-200 | A low-link equal to the visit number: what lies on the stack from v on is one complete component, and writing it keeps the invariant |
| `StrongComponents.TopClosed` | italos/lib/sc.c:182-200 | When the low-link equals the visit number no edge leaves the top of the stack but to finished components |
| `StrongComponents.AllWritten` | italos/lib/sc.c:115-119 | When no vertex is unvisited the stack is empty and the slices are the answer |
| `BinaryHeap.BHeap.Insert` | italos/lib/bheap.c:64-98 | Heap order and the exact position index are kept and exactly the pair (item, key) is added |
| `BinaryHeap.BHeap.InsertAt` | italos/lib/bheap.c:64-98 | The same loop when n was set back to insert in the middle: the entries behind it, too, are in heap order afterwards |
| `BinaryHeap.BHeap.Delete` | italos/lib/bheap.c:103-136 | Exactly the pair of the item goes, whether the last entry sinks or rises from its place |
| `BinaryHeap.BHeap.DecreaseKey` | italos/lib/bheap.c:143-153 | Exactly the key of the item changes, and heap order and index are kept |
| `BinaryHeap.BHeap.SiftUp` | italos/lib/bheap.c:163-204 | An entry too large for its place sinks below the smaller children; the pairs stay and heap order is restored |
| `BinaryHeap.BHeap.Min` | italos/lib/bheap.c:54-58 | The item returned is in the heap and no item has a smaller key |
| `BinaryHeap.BHeap.DeleteMin` | italos/lib/bheap.c:211-217 | An item of least key is returned and exactly that one is gone |
| `BinaryHeap.BHeap.Count` | italos/lib/bheap.c:229-232 | The count is the number of items in the heap |
| `BinaryHeap.RootIsLeast` | italos/lib/bheap.c:51-58 | In an array in heap order no entry is smaller than the first |
| `BinaryHeap.PairsAreEntries` | italos/lib/bheap.c:61-98 | The map of items to keys holds exactly what the array entries say |
| `SpanningTrees.Prim` | italos/lib/mst.c:19-136 | On every connected symmetric weighted graph, simple at the start vertex, the edges (reached[w], w) of weight d[w], for all other vertices w, form a spanning tree and no spanning tree weighs less |
| `SpanningTrees.GrownIsMinimal` | italos/lib/mst.c:85-128 | A tree grown by lightest crossing edges until it has all vertices is a minimum spanning tree |
| `SpanningTrees.Cheapest` | italos/lib/mst.c:89-128 | From any point of the growth on, no other way to connect the rest with as many edges is cheaper than the edges still to be added |
| `SpanningTrees.DropCrossing` | italos/lib/mst.c:89-128 | The exchange step: once a further vertex is in the tree, some arc of any connecting set that crosses the border can be left out |
| `SpanningTrees.AddSound` | italos/lib/mst.c:91-95 | A frontier vertex of least key joins along a lightest edge of the whole cut |
| `SpanningTrees.RelaxBest` | italos/lib/mst.c:99-127 | After an edge was looked at, the frontier offers its end at no more than its weight |
| `SpanningTrees.ArraysAreMinimal` | italos/lib/mst.c:55-57 | The edges read off the result arrays, in whatever order the vertices were added, form a spanning tree of least weight |
| `Sorting.Heapsort` | italos/lib/sort.c:520-643 | For every comparator that is a total preorder and at least two elements, the array ends sorted and holds what it held |
| `Sorting.SiftUp` | italos/lib/sort.c:537-576 | One step of bottom-up building: the heap grows by the subtree at i, and the elements are the same |
| `Sorting.Descend` | italos/lib/sort.c:602-622 | Moving the larger child up, down to a leaf, leaves a heap with a hole there |
| `Sorting.Climb` | italos/lib/sort.c:624-638 | Climbing from the leaf to where y fits restores the heap on the shorter prefix, and exactly y has gone in |
| `Sorting.RootTakesPlace` | italos/lib/sort.c:591-639 | The root moved behind the shrunken heap is in its final place: heap in front, sorted maxima behind, elements kept |
| `Sorting.Mergesort` | italos/lib/sort.c:292-316 | For every total preorder and every length, 0 and 1 included, the array ends as a stable sort of what it was |
| `Sorting.MergesortRecursive` | italos/lib/sort.c:328-391 | If the two regions are equal on entry, the destination ends as a stable sort of them, nothing outside changes, and the swapped recursive calls find their regions equal |
| `Sorting.Merge` | italos/lib/sort.c:358-389 | Merging two sorted regions, the first preferred on ties, gives a stable sort of one after the other |
| `Sorting.StablePermutes` | italos/lib/sort.c:285-291 | Keeping each class of equal elements in order implies being a permutation |
| `BreadthFirst.Bfs` | italos/lib/dfs_bfs.c:107-173 | The vertices returned are exactly the reachable ones, once each, in order of distance, each but the first one step beyond its parent; visit_nos inverts vertices and is -1 for the unreached; the start has no parent and the entries behind the last are -1; and the order is that of the search: the parent is the vertex visited first of all that have an edge to a vertex, children come in the order of their parents, and those of one parent in the order of its edges |
| `BreadthFirst.LevelIsDistance` | italos/lib/dfs_bfs.c:141-167 | The level at which a vertex was found is the length of a shortest path to it |
| `BreadthFirst.AllFound` | italos/lib/dfs_bfs.c:141-172 | Once all edges of all vertices found have been followed, what was found is the whole answer |
| `BreadthFirst.TurnNew` | italos/lib/dfs_bfs.c:143-158 | A vertex found along an edge is found along the first edge looked at that leads to it, and after all vertices found before |
| `BreadthFirst.TurnsAre` | italos/lib/dfs_bfs.c:138-168 | What finding in turn means: of the vertices that lead to one its parent was found first, and the children of a vertex come in the order of its edges |
| `BreadthFirst.Expand` | italos/lib/dfs_bfs.c:141-167 | One turn: all edges of the head are followed, and the queue still spans at most two adjacent levels |
| `TicTacToe.BestMove` | cheapos/tasks/ttt.c:171-244 | For every undecided board and every window Alpha < Beta: the score is the minimax value if that lies inside the window and otherwise lies on its side of it; the board is restored; Square is a perfect move when the value lies inside the window, a free square that passes the far side when it lies beyond, and -1 when no move gets past the near side |
| `TicTacToe.MinimaxIsBest` | cheapos/tasks/ttt.c:204-241 | The minimax value of an undecided board is attained by some move and no move is better |
| `TicTacToe.CutOff` | cheapos/tasks/ttt.c:220-232 | Leaving the loop at a move that passes the far side of the window reports a score on the right side |
| `TicTacToe.AllTried` | cheapos/tasks/ttt.c:239-243 | When no move was cut off, Alpha (or Beta) is the exact value or on its right side, and the square kept is a best one |
| `TicTacToe.RowsAreLines` | cheapos/tasks/ttt.c:25-34 | A player owns a row exactly if he has all three squares of one of the three rows, three columns and two diagonals |
| `TicTacToe.HeuristicIs` | cheapos/tasks/ttt.c:37-42 | The heuristic adds up the table entries of the eight lines, counted square by square |
| `TicTacToe.MoveIsWorth` | cheapos/tasks/ttt.c:204-216 | A move that completes a row is worth as many points as squares were free, for X, or that negated, for O; any other is worth strictly less than that to him who moves, 0 if it fills the board, and else what the board after it is worth |
| `TicTacToe.MinimaxIs` | cheapos/tasks/ttt.c:204-241 | A board on which the player to move can complete a row is worth the number of free squares, with his sign; any other less, 0 if one square is left, and else exactly the best value of the boards his moves lead to. So an earlier win is worth more |
| `TicTacToe.TryMove` | cheapos/tasks/ttt.c:204-218 | Playing a move, scoring it by the winner or by the recursive search, and taking it back |
| `TicTacToe.OrderMoves` | cheapos/tasks/ttt.c:180-197 | The list holds every free square once, better heuristics first, and the board is as before |
| `TicTacToe.InsertMove` | cheapos/tasks/ttt.c:188-195 | The new move goes behind all moves that are no worse and before all worse ones |
| `TicTacToe.FindWinner` | cheapos/tasks/ttt.c:109-124 | The owner of the first full row, else EMPTY if a square is free, else the tie mark |
| `TicTacToe.WinnerMeans` | cheapos/tasks/ttt.c:107-124 | The winner is a player exactly if a player owns a row, and then one who does; otherwise the game goes on exactly as long as a square is free |
| `TicTacToe.Evaluate` | cheapos/tasks/ttt.c:151-167 | The heuristic is the sum over the eight rows of the table entry for own and other pieces |
| `TicTacToe.InsideWindow` | cheapos/tasks/ttt.c:204-218 | With the move number that belongs to the board, every value lies strictly between -10 and 10 |
| `TicTacToe.ComputerMove` | cheapos/tasks/ttt.c:271-276 | The computer plays a free square of minimax value, and one that completes a row if there is one |
| `TicTacToeGame.Game` | cheapos/tasks/ttt.c:295-336 | Whoever begins and whatever legal moves the human makes, the game ends, and the computer has won or it is a tie |
| `TicTacToeGame.StartIsNoLoss` | cheapos/tasks/ttt.c:171-244 | The minimax value of the empty board is at least 0 for X, whoever begins |
| `TicTacToeGame.SafeIsNoLoss` | cheapos/tasks/ttt.c:204-241 | On a board from which X can always answer without losing, the minimax value is at least 0 |
| `TicTacToeGame.GuardedIsSafe` | cheapos/tasks/ttt.c:109-117 | When every row has a square of X or holds a pair of squares within which X answers, O never completes a row |
| `PidQueue.PidCoda.constructor` | cheapos/pidcoda.c:4-12 | Leaves the empty queue |
| `PidQueue.PidCoda.Elements` | cheapos/pidcoda.c:15-18 | The number of pids in the queue, also when the ring wraps round |
| `PidQueue.PidCoda.Pop` | cheapos/pidcoda.c:21-30 | Takes the pid that was inserted first, -1 if there is none |
| `PidQueue.PidCoda.Ins` | cheapos/pidcoda.c:33-41 | Appends the pid behind all others; fails exactly when 128 are there |
| `PidQueue.RingInsert` | cheapos/pidcoda.c:37-38 | The free cell below the last element extends the descending ring by one |
| `TaskKernel.AllRunsSafe` | cheapos/scheduler.c:54-190 | From boot on, in every run of scheduler, kwait, kwait_check, exit, fork, exec, kill and semaphoro_up steps in which only holders release: no semaphore has two holders, each pid 1..127 is in exactly one of ready, wait, free or running, and every semaphore for which all kills of the run are orderly, in particular every one if there are no kills, is granted in order of arrival |
| `TaskKernel.RunSafe` | cheapos/scheduler.c:119-190 | Mutual exclusion and one place for each pid hold after every run from any state in which they hold |
| `TaskKernel.RunFair` | cheapos/scheduler.c:119-137 | A semaphore is granted in order of arrival, those killed while they waited left out, after every run whose kills are orderly for it |
| `TaskKernel.StepKeeps` | cheapos/scheduler.c:75-190 | Every step keeps all pids in one place each and every semaphore waited for in existence |
| `TaskKernel.PopulationKept` | cheapos/scheduler.c:75-190 | Conservation: no step loses or doubles a pid |
| `TaskKernel.OnePlaceEach` | cheapos/scheduler.c:54-63 | Each pid from 1 to 127 is in exactly one of the four places, and nothing else is in any |
| `TaskKernel.Room` | cheapos/pidcoda.c:33-41 | The queues together hold at most 127 pids, so no insertion can fail |
| `TaskKernel.ExclusiveKept` | cheapos/semaphoro.c:12-27 | A held semaphore is red and has one holder, after every step in which only holders release |
| `TaskKernel.GrantedOnce` | cheapos/scheduler.c:126-134 | One pass grants only semaphores that were not red, each to one waiter, and leaves them red |
| `TaskKernel.PassServes` | cheapos/scheduler.c:119-137 | One pass wakes at most the first waiter of a semaphore, only if it is not red, and leaves the others in order |
| `TaskKernel.FairKept` | cheapos/scheduler.c:119-137 | Who began to wait for a semaphore, without those killed while they waited, is who was granted it, in the same order, followed by those still waiting: a step keeps this if and only if it is no kill, or an orderly one |
| `TaskKernel.KillKeepsOrder` | cheapos/syscall_task.c:311-330 | A kill leaves the remaining waiters of a semaphore in order if and only if it finds its pid elsewhere than in the wait queue, or nobody waits for that semaphore before the killed pid, or nobody behind it |
| `TaskKernel.KillOvertakes` | cheapos/syscall_task.c:311-330 | The input that breaks the order, as a run from boot: four processes start, 1, 2 and 3 begin to wait in this order for a green semaphore, 2 is killed, and the next pass grants the semaphore to 3 while 1 waits on |
| `TaskKernel.WhoIsWoken` | cheapos/scheduler.c:119-137 | After one pass a waiting pid is ready exactly if the condition outside that it waits for holds, or if the semaphore it waits for was not red and nobody before it in the queue waits for the same one; else it still waits; each semaphore waited for is red, and no other one changes |
| `TaskKernel.PassInOrder` | cheapos/scheduler.c:119-137 | Of two waiting pids that a pass both wakes, or both leaves, the first stays first, and all who were ready before come before the woken |
| `TaskKernel.ReleasedIsGranted` | cheapos/semaphoro.c:12-27 | Releasing a semaphore makes it not red and changes nothing else, and the next pass makes the first task that waits for it ready |
| `TaskKernel.RoundRobin` | cheapos/scheduler.c:75-116 | The task at place n of the ready queue runs after n + 1 calls of the scheduler, for every n |
| `TaskKernel.RunningMoves` | cheapos/scheduler.c:88-116 | Where the running pid goes and who runs next, at a tick, when it begins to wait and when it exits, also when nobody is ready |
| `TaskKernel.ChildIsBorn` | cheapos/syscall_task.c:104-273 | Fork and exec make the first free pid the last ready one, or leave it free, and change nothing else |
| `TaskKernel.WhoIsKilled` | cheapos/syscall_task.c:276-333 | A kill frees exactly a ready or waiting pid of at least 2, and every other pid stays in the queue it was in |
| `TaskKernel.HistoryIsTrue` | cheapos/scheduler.c:119-190 | The recorded history that exclusion and order of service are stated on says what the steps do: who was granted a semaphore, who holds it, who began to wait |
| `TaskKernel.Kernel.constructor` | cheapos/scheduler.c:54-63 | Boot: all pids but that of the idle task are free, in order, the other queues are empty, no semaphore is red and all exit codes are 0 |
| `TaskKernel.Kernel.Scheduler` | cheapos/scheduler.c:75-116 | The running pid goes behind all ready ones and the first ready one runs; the idle task never queues; no insertion fails |
| `TaskKernel.Kernel.KwaitHandler` | cheapos/scheduler.c:140-190 | The running pid goes behind all waiting ones with its event recorded, and the first ready one runs |
| `TaskKernel.Kernel.KwaitCheck` | cheapos/scheduler.c:119-137 | One pass over the queue as it was: every waiter is asked once, in order; those told yes become ready in that order, the others keep theirs |
| `TaskKernel.Kernel.Wsemaphoro` | cheapos/semaphoro.c:12-20 | Test and set: granted exactly if not red, and red afterwards in any case |
| `TaskKernel.Kernel.SemaphoroUp` | cheapos/semaphoro.c:22-27 | The semaphore is green, and nothing else changes |
| `TaskKernel.Kernel.Exit` | cheapos/syscall_task.c:10-35 | The running pid becomes the last free one, its exit code and no other is recorded, and the first ready one runs |
| `TaskKernel.Kernel.Fork` | cheapos/syscall_task.c:104-144 | The first free pid becomes ready, or goes behind the other free ones if there is no memory; -1 in that case and when none is free |
| `TaskKernel.Kernel.Exec` | cheapos/syscall_task.c:247-273 | The first free pid becomes ready; -1 and no change when none is free or nothing was loaded |
| `TaskKernel.Kernel.Kill` | cheapos/syscall_task.c:276-333 | Kills exactly a ready or waiting pid of at least 2 other than the caller, and records the exit code -1 for it alone; the queue searched is turned at the place where it was found, and unchanged when it was not |
| `Fat12Entries.Disk.IntFat12` | ItaliOs-distmiki-current/tools/fat12.c:45-78 | Said of the bytes of the sectors, for both parities and for entries that straddle two sectors: -3 exactly if one of the reads named fails, else 0 if the 12 bits are 0, -1 if they are 0xfff, -2 if they are 0xff7 and the data sector they name if they are anything else |
| `Fat12Entries.Disk.SetFat12` | ItaliOs-distmiki-current/tools/fat12.c:80-116 | 0 exactly if the reads named all succeed, and then the table is the old one with that entry replaced, in one sector or in two; after -3 it is unchanged, except that the first byte of the entry is new if only the last read of a straddling entry failed; every byte of every sector afterwards is stated, those outside the table included |
| `Fat12Entries.Disk.SetAndGet` | ItaliOs-distmiki-current/tools/fat12.c:45-116 | Set, then get: if no read fails, a data sector in [nfat, 0xf00) comes back, 0 as 0 and 4095 as -1; and whichever reads fail, every other entry is as it was |
| `Fat12Entries.ComesBack` | ItaliOs-distmiki-current/tools/fat12.c:85-101 | Exactly which of all 16 bit numbers come back as themselves when written and read |
| `Fat12Entries.HalfBytesOf` | ItaliOs-distmiki-current/tools/fat12.c:54-73 | The entries lie one after the other without gaps: entry c is the three half bytes from number 3 c of the table on, lowest first, so it begins at bit 12 c |
| `Fat12Entries.AnswersDiffer` | ItaliOs-distmiki-current/tools/fat12.c:73-77 | No two entry values give the same answer |
| `Fat12Entries.StoredIsRead` | ItaliOs-distmiki-current/tools/fat12.c:90-103 | An entry stored in the table is read back, for both parities |
| `Fat12Entries.OthersStay` | ItaliOs-distmiki-current/tools/fat12.c:102-103 | All other entries stay, also the neighbour that shares a byte |
| `Fat12Entries.Disk.WritePair` | ItaliOs-distmiki-current/tools/fat12.c:105-114 | Reading the sectors again and writing the two bytes: both are changed if the reads succeed, the first one alone if only the second read fails, none otherwise |
| `Fat12Entries.Disk.TornWhen` | ItaliOs-distmiki-current/tools/fat12.c:93-114 | An entry is left half written exactly if it straddles two sectors, the first three reads succeed and the fourth fails |
| `Fat12Entries.TornIs` | ItaliOs-distmiki-current/tools/fat12.c:107-110 | What a half written entry says: its low half byte, or low byte, is new and the rest old |
| `Fat12Entries.TornSpares` | ItaliOs-distmiki-current/tools/fat12.c:107-110 | A half written entry harms no other entry, not even the neighbour that shares its byte |
| `SectorCache.Cache.Clear` | cheapos/cache.c:16-30 | Nothing is cached, and all counters are zero |
| `SectorCache.Cache.FindCopy` | cheapos/cache.c:32-51 | A hit exactly if the sector is cached, and then with the image inserted last since the cache was cleared; only the access count of its slot changes |
| `SectorCache.Cache.InsertRefresh` | cheapos/cache.c:53-84 | A cached sector gets the new image in its slot; another takes one slot, and the cache afterwards holds exactly it and what it held before without what was in that slot; an occupied slot is given up only if all are occupied and none has fewer accesses, and it is the first such slot |
| `SectorCache.Cache.Choose` | cheapos/cache.c:65-72 | The first empty slot if there is one, else the first of the slots with the fewest accesses |
| `SectorCache.CountIsSize` | cheapos/cache.c:74-75 | The number of occupied slots is the number of sectors cached, as none is in two slots |
| `SectorCache.NewSector` | cheapos/cache.c:74-81 | Giving a slot to a sector not cached evicts exactly what the slot held |
| `SectorCache.SameSector` | cheapos/cache.c:53-63 | Changing the slot of a cached sector changes that sector only |
| `SectorCache.Accessed` | cheapos/cache.c:41-42 | Below 1024 the count grows by one; at 1024 the next access halves it, rounding down |

## Left out

- Allocation never fails and nothing is freed; the tree, heap, graph and result allocators and destructors are not modelled.
- Items of the dictionaries are keyed by integers: `compar` only sees how two keys compare.  That two items with equal
  keys are told apart is kept.
- `AvlTree.Avl.Insert`, `RedBlackTree.RbTree.Insert` and `TwoThreeTree.TwoThree.Insert` of a new item are called only while the number of items is
  below the largest C int, as the code does not check its counter; the plain search tree has no such bound in the model.
- Keys of the binary heap, edge weights and the hit and miss counters are unbounded integers.
- BinaryHeap.BHeap: keeps the counter of key comparisons, but nothing is stated about it.
- Edge lists and the queue of the breadth first search, which are linked lists, are sequences.
- The 2-3 tree code for lowest nodes and for inner nodes does the same with items and with nodes; the model has one
  method for both, over links that are either.
- What the programs demand of their callers is a precondition: at least one vertex for `sc`, at least two elements for `heapsort`, a
  connected symmetric graph without loops or parallel edges at the start vertex for `mst_prim`.
- `mst_prim` is modelled on the binary heap only, not on other heaps that fit its interface.
- `Wait` for events other than semaphores: the wait functions for time and for exit codes are conditions outside the model.
- Registers, stacks, memory and open files of processes: exit, fork, exec and kill are modelled as far as the queues,
  the wait table and the exit codes go; whether memory and files are there are parameters.
- The idle task neither waits nor exits; the error halts for that are not in the model.
- `TicTacToeGame.Game` takes the human's answers from a function that always names a free square; input, output and the
  node counter are left out.
- Failing writes of the FAT12 functions: `write_block` succeeds, as its result is not looked at.  Which reads fail is a
  parameter, read by read.
- The rest of `tools/fat12.c`: mounting, files, directories and paths.
- `cache_init` with no memory, and the dumps of the cache and of the pid queues.
- Depth first search, `quicksort`, `mergesort0`, `radixsort`, the hash table and the other memory managers of the repository.
- `waitpid`, the shells, drivers, interrupt and hardware code.
