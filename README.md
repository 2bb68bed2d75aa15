# A verified model of `rb_tree`

`rb_tree.py` is a red-black tree built from node objects. It follows the pointer style of Cormen et al., *Introduction to Algorithms*, chapter 13:
- every node holds `data`, a colour and links to `left`, `right` and `parent`;
- one black sentinel node fills every empty child position and is the parent of the root;
- `root` is `None` until the first insertion.

The tree offers:
- the three traversals;
- `find_node`, `find_min` and `find_successor`;
- `left_rotate` and `right_rotate`;
- plain binary-search-tree insertion (`bst_insert`) and balancing insertion (`insert` with `__rb_insert_fixup`);
- deletion (`delete` with `replace` and `__rb_delete_fixup`).

The model has two layers.

**The abstract tree** is a datatype `Tree = Leaf | Node(color, left, id, key, right)`.
- `id` is the handle of the node object. `Leaf` is the sentinel.
- Ancestors are a zipper: a `seq<Frame>`, innermost first, and `Plug` puts a cursor subtree back in place.
- The fixup loops are specified by the functions `Insertion.InsertFix` and `Deletion.DeleteFix`. They follow the pointer code case by case on the frames around the cursor.
- The red-black properties, the key multiset and the in-order key sequence are proved about these functions (modules Trees, Zipper, Coloring, Search, Edits, Insertion, Deletion, Successor).

**The pointer layer** is the class `RbTrees.RbTree`.
- Its node objects live in `nodes: seq<Slot>`, an arena indexed by handle.
- `nodes[0]` is the sentinel, a black slot whose child links point to itself.
- `root: Option<nat>` is `None` for Python's `None`.
- A ghost field `tree` holds the abstract tree. `Arena.Rep` ties every slot's key, colour, child links and parent link to it.
- Every method has the same effect on the nodes as the Python code, with its writes in the same order. Its `ensures` says which abstract tree results. There are two exceptions. Painting the sentinel black (`rb_tree.py:479`) skips the write, because the sentinel is already black. The delete-fixup cases reuse the parent handle instead of re-reading `x.parent` (see Left out).
- The modules Arena, Relink, Splicing, FixupReads and DeleteSteps hold the lemmas that connect the arena writes to the abstract edits.

`Scenarios` replays one test sequence: `test_tree_insert_color_2` and `test_tree_delete_color_2` (`test_rb_tree.py:210-228` and `296-322`). It inserts 7, 5, 9, 3, 6, 8, 10, 1, 2 and then deletes 6 and 7, checking the preorder keys and colours after each step. The other test sequences are not replayed.

## Model

| member | source | states |
|---|---|---|
| RbTrees.RbTree.constructor | rb_tree.py:100-105 | a new tree has no root (`None`) and one fresh sentinel slot: black, with its child links pointing to itself |
| RbTrees.RbTree.Walk | rb_tree.py:147-156 | the recursive walk over the links lists exactly the handles of the subtree in pre-, in- or post-order |
| RbTrees.RbTree.Traversal | rb_tree.py:135-156 | `inorder`/`preorder`/`postorder` yield every real node exactly once (never the sentinel), and the keys read from the yielded nodes are the tree's keys in that order; in-order keys are non-decreasing |
| Trees.TraverseVisitsEachNodeOnce | rb_tree.py:147-156 | each traversal order has no repeated handle and holds exactly the tree's handles |
| Trees.InorderTraversal | rb_tree.py:135-156 | the keys of the in-order traversal are the in-order key sequence |
| Relink.RepTraverseKeys | rb_tree.py:147-156 | the slots of the traversed handles hold the keys of the abstract traversal, position by position |
| RbTrees.RbTree.Get | rb_tree.py:178-189 | the recursive search (left when smaller, right otherwise, stopping at the first equal key) reaches the node `Search.Find` describes, or the sentinel |
| Search.FindCorrect | rb_tree.py:178-189 | in a search-ordered tree the search finds a node exactly when the key is present, and that node holds the key |
| RbTrees.RbTree.FindNode | rb_tree.py:167-175 | `find_node` gives `KeyError("Error, tree has no root")` without a root, `KeyError("Error, data not found")` exactly when the key is absent, and otherwise a node of the tree holding the key |
| RbTrees.RbTree.Leftmost | rb_tree.py:160-164 | the walk down left links stops at the leftmost node of the subtree |
| RbTrees.RbTree.FindMin | rb_tree.py:160-164 | `find_min` returns the leftmost node; its key is the first in-order key and no key is smaller; the sentinel for an emptied tree |
| Search.MinIsMinimum | rb_tree.py:160-164 | the leftmost node's key is a lower bound of every key in a search-ordered tree |
| RbTrees.RbTree.FindSuccessor | rb_tree.py:191-212 | `find_successor` as written: the errors of `find_node`, otherwise the leftmost node of the right subtree, the sentinel when that subtree is empty |
| RbTrees.RbTree.InorderSuccessor | rb_tree.py:191-212 | the successor the comments describe: down into the right subtree or up the parent links, the result being the node that follows in in-order, `None` for the last node; with a right child it is the leftmost node of the right subtree |
| Successor.SuccessorIsNext | rb_tree.py:196-208 | the node after a node in in-order is the leftmost node of its right subtree when it has one, and otherwise the first ancestor whose left subtree holds it |
| Successor.NextFollows | rb_tree.py:191-212 | a successor that is not the sentinel stands immediately after the node in the sequence; a node absent from the sequence has none |
| Successor.AsWrittenSuccessorMisses | rb_tree.py:197-212 | in the red-black tree with root 5 and left child 1, the as-written lookup for 1 gets the sentinel although 5 follows it in in-order, and the lookup for 5 gets the sentinel rather than `None` |
| RbTrees.RbTree.Paint | rb_tree.py:331-334 | a colour write changes only the colour of that one node (the sentinel is only ever painted black), and keeps the keys and the links |
| RbTrees.RbTree.Hang | rb_tree.py:275-280 | the write shared by the rotations and `replace`: the parent's link that held the old child, or `root` when there is no parent, now holds the new one |
| RbTrees.RbTree.Relink | rb_tree.py:270-282 | the writes of a rotation are exactly the five link updates of `Relink.RotateWrites` |
| RbTrees.RbTree.RotateNode | rb_tree.py:268-282 | rotating the cursor node either fails with `KeyError` and writes nothing when the child that would rise is the sentinel, or replaces the cursor subtree by its rotation |
| RbTrees.RbTree.Turn | rb_tree.py:253-313 | a rotation at `x` either fails with `KeyError` and changes nothing (when the rising child is the sentinel), or yields `RotateAt` of the old tree; the rising child becomes the root when `x` was the root; in-order keys and validity are kept |
| RbTrees.RbTree.LeftRotate | rb_tree.py:253-282 | `left_rotate(x)` fails with `KeyError` and changes nothing exactly when `x.right` is the sentinel; otherwise the tree becomes `RotateLeftAt`, `x.right` becomes the root when `x` was the root, and the in-order keys, colours and links stay consistent |
| RbTrees.RbTree.RightRotate | rb_tree.py:284-313 | `right_rotate(x)`, the mirror image of `left_rotate` |
| Edits.RotateLeftAtKeeps | rb_tree.py:270-282 | a left rotation keeps the in-order key sequence, the handles, every node's key and colour, and distinctness |
| Edits.RotateRightAtKeeps | rb_tree.py:301-313 | the same for a right rotation |
| Edits.RotateLeftThenRightAt | rb_tree.py:253-313 | `right_rotate` at the risen node undoes `left_rotate(x)` |
| Edits.RotateRightThenLeftAt | rb_tree.py:253-313 | `left_rotate` at the risen node undoes `right_rotate(x)` |
| RbTrees.RbTree.PutAt | rb_tree.py:238-251 | `__put` hangs one new red node with sentinel children (smaller keys left, others right) at the leaf position `Search.Put` describes |
| RbTrees.RbTree.BstInsert | rb_tree.py:228-235 | `bst_insert` makes the new node the root of an empty tree or hangs it with `__put`; search order and the link invariant are kept |
| Search.PutAdds | rb_tree.py:238-251 | placing a key adds exactly that key to the key multiset |
| Search.PutEntries | rb_tree.py:21-26 | placing a key adds one red node with the new handle and changes no other node's key or colour |
| Search.PutIds | rb_tree.py:238-251 | placing a key adds exactly the new handle |
| Search.PutOrdered | rb_tree.py:238-251 | placing a key keeps the search order |
| RbTrees.RbTree.InsertCase1 | rb_tree.py:330-334 | case 1, a red uncle: parent and uncle turn black, the grandparent red, and the cursor moves to the grandparent, following `InsertFix` |
| Insertion.Case1Paints | rb_tree.py:330-334 | the three colour writes of case 1 give the tree `InsertFix`'s case 1 describes |
| RbTrees.RbTree.InsertCase23 | rb_tree.py:335-341 | cases 2 and 3, a black uncle: an optional rotation at the parent, then a recolouring and a rotation at the grandparent, following `InsertFix` |
| Insertion.Case3Rotates | rb_tree.py:339-341 | the colour writes and the rotation of case 3 give the tree `InsertFix` describes |
| RbTrees.RbTree.InsertPass | rb_tree.py:327-355 | one pass of the insertion loop keeps the loop invariant, preserves the final answer `InsertFix` and shortens the ancestor path |
| RbTrees.RbTree.InsertFixup | rb_tree.py:315-356 | `__rb_insert_fixup` leaves the tree `InsertFix` computes, with the root painted black |
| Insertion.InsertFixRedBlack | rb_tree.py:315-356 | the fixup turns a tree whose only flaw is one red-red edge at the new node into a red-black tree |
| Insertion.InsertFixKeeps | rb_tree.py:315-356 | the fixup keeps the in-order keys and the handles |
| RbTrees.RbTree.Insert | rb_tree.py:215-225 | `insert` keeps search order and the red-black properties (black root, no red-red edge, equal black height), and the key multiset gains exactly `k` |
| Insertion.InsertRedBlack | rb_tree.py:215-225 | insertion into a red-black tree gives a red-black tree |
| Insertion.InsertKeys | rb_tree.py:215-225 | insertion adds exactly the key and the handle, and keeps search order |
| Scenarios.InsertScenario | test_rb_tree.py:210-227 | inserting 7, 5, 9, 3, 6, 8, 10, 1, 2 into an empty tree gives the tree `Nine` |
| Scenarios.InsertedPreorder | test_rb_tree.py:224-227 | that tree's preorder keys are 7, 5, 2, 1, 3, 6, 9, 8, 10, with colours black, red, black, red, red, black, black, red, red |
| RbTrees.RbTree.Replace | rb_tree.py:358-377 | `replace`: the replacer takes the replaced node's place below its parent (or as root), and its parent link is written even when it is the sentinel |
| RbTrees.RbTree.Adopt | rb_tree.py:417-420 | the successor takes over the deleted node's left child and colour |
| RbTrees.RbTree.DetachSuccessor | rb_tree.py:410-416 | the successor leaves its place, its right child taking it, and the sentinel's parent link records where the cursor sits |
| RbTrees.RbTree.MoveSuccessor | rb_tree.py:413-416 | a successor that is not the deleted node's right child is replaced by its right child and takes over the deleted node's right subtree |
| RbTrees.RbTree.UnlinkTwo | rb_tree.py:407-420 | deleting a node with two children moves the successor node into its place; the arena holds the tree `Deletion.Unlink` describes, with the cursor for the fixup |
| RbTrees.RbTree.UnlinkNode | rb_tree.py:400-420 | the one-child and two-children branches of `delete` leave the tree `Deletion.Unlink` describes, with the cursor `x` and the removed colour |
| Deletion.UnlinkPlug | rb_tree.py:400-420 | the unlinked tree is the old tree with the node spliced out |
| Deletion.UnlinkValid | rb_tree.py:400-422 | after unlinking, removing a black node leaves a tree with one black-height deficit at the cursor, and removing a red node leaves a red-black tree |
| RbTrees.RbTree.DeleteCase1 | rb_tree.py:439-443 | case 1, a red sibling: recolouring and a rotation at the parent, following `Deletion.Case1` |
| DeleteSteps.Case1Turns | rb_tree.py:439-443 | the writes of case 1 give the tree `Deletion.Case1` describes |
| Deletion.Case1Valid | rb_tree.py:439-443 | after case 1 the sibling is black, with the black height the deficit needs |
| RbTrees.RbTree.DeleteCase2 | rb_tree.py:444-446 | case 2, two black nephews: the sibling turns red and the cursor moves to the parent |
| DeleteSteps.Case2Paints | rb_tree.py:444-446 | the colour write of case 2 gives the tree `DeleteFix` describes |
| Deletion.Case2Valid | rb_tree.py:444-446 | case 2 moves the deficit up to the parent |
| RbTrees.RbTree.DeleteCase3 | rb_tree.py:448-452 | case 3, a red near nephew: recolouring and a rotation at the sibling, following `Deletion.Case3` |
| DeleteSteps.Case3Turns | rb_tree.py:448-452 | the writes of case 3 give the sibling `Deletion.Case3` describes |
| Deletion.Case3Valid | rb_tree.py:448-452 | after case 3 the sibling is black and valid with a red far child |
| RbTrees.RbTree.DeleteCase4 | rb_tree.py:453-457 | case 4, a red far nephew: recolouring and a rotation at the parent, following `Deletion.Case4` |
| DeleteSteps.Case4Turns | rb_tree.py:453-457 | the writes of case 4 give the subtree `Deletion.Case4` describes |
| Deletion.Case4Valid | rb_tree.py:453-457 | case 4 removes the deficit and keeps the parent's colour at the top |
| RbTrees.RbTree.DeleteCase34 | rb_tree.py:447-457 | cases 3 and 4 together end the loop with the cursor at the root |
| RbTrees.RbTree.DeletePass | rb_tree.py:436-478 | one pass of the deletion loop keeps the deficit invariant, preserves the final answer `DeleteFix` and decreases the measure |
| FixupReads.SiblingReads | rb_tree.py:437-438 | the parent, sibling and nephews the fixup reads through the links are those of the abstract tree, even when the cursor is the sentinel |
| FixupReads.SiblingIsNode | rb_tree.py:437-438 | under the deficit invariant the sibling is a real node |
| RbTrees.RbTree.DeleteFixup | rb_tree.py:424-479 | `__rb_delete_fixup` leaves the tree `DeleteFix` computes, with the final cursor painted black |
| Deletion.DeleteFixRedBlack | rb_tree.py:424-479 | the fixup turns a tree with one black-height deficit at the cursor into a red-black tree |
| Deletion.DeleteFixKeeps | rb_tree.py:424-479 | the fixup keeps the in-order keys and handles |
| RbTrees.RbTree.DeleteFound | rb_tree.py:398-422 | once the node is found, unlinking and the fixup leave the tree `Deletion.Delete` describes |
| RbTrees.RbTree.Delete | rb_tree.py:379-422 | `delete` raises a bare `KeyError` without a root and `KeyError("Error, data not found")` exactly when the key is absent, changing nothing; otherwise one occurrence of `k` leaves the key multiset, and search order and the red-black properties hold |
| Deletion.DeleteRedBlack | rb_tree.py:379-422 | deletion from a red-black tree gives a red-black tree |
| Deletion.DeleteKeys | rb_tree.py:379-422 | deletion removes exactly one occurrence of the key, keeps search order, and changes nothing when the key is absent |
| Deletion.DeleteIds | rb_tree.py:398-420 | deletion removes exactly the found node's handle |
| Scenarios.DeleteScenario | test_rb_tree.py:313-318 | deleting 6 from `Nine` gives `WithoutSix`, and deleting 7 from that gives `Pruned` |
| Scenarios.WithoutSixPreorder | test_rb_tree.py:314-317 | `WithoutSix` has preorder keys 7, 2, 1, 5, 3, 9, 8, 10, with colours black, red, black, black, red, black, red, red |
| Scenarios.PrunedPreorder | test_rb_tree.py:319-322 | `Pruned` has preorder keys 8, 2, 1, 5, 3, 9, 10, with colours black, red, black, black, red, black, red |
| Coloring.BalancedIffUniformPaths | rb_tree.py:315-356 | equal black height on both sides everywhere holds exactly when every root-to-sentinel path counts the same number of black nodes |

## Left out

- The printing helpers (`rb_tree.py:107-133`) and the diagnostic `print` in `__get` (`rb_tree.py:180`) are console output only. They have no effect on the tree.
- The traversals are lazy generators in Python. Here a traversal is a sequence.
- `find_min` on a tree whose root is `None` crashes with an attribute error, so `RbTrees.RbTree.FindMin` requires a root.
- RbTrees.RbTree.Traversal requires a root. On a tree whose root is `None`, `__traverse` gets past its sentinel test (`rb_tree.py:148`) and crashes reading `None.left` (`rb_tree.py:151`). `preorder` first yields `None`, then crashes. That crash is not a defined error, so it is not modelled.
- Node identity is a handle into the arena. The model does not represent Python object aliasing beyond the shared sentinel at handle 0.
- Colours are a two-valued datatype rather than strings, and keys are integers rather than arbitrary comparable values.
- The left and right halves of each fixup loop, and the two rotations, are modelled once each, parameterised by a side.
- `RbTrees.RbTree.Insert` and `RbTrees.RbTree.Delete` require a red-black tree. On other trees the Python fixups can rotate at the sentinel or paint it red, which the model does not follow.
- `RbTrees.RbTree.DeleteCase2` and `RbTrees.RbTree.DeleteCase34` reuse the parent handle read at the top of the pass rather than re-reading `x.parent`. These give the same node, and `SiblingReads` ties the two together.
- The check `current_node is self.sentinel` at the top of `find_successor` (`rb_tree.py:194-195`) cannot fire after a successful `find_node`, so it is not modelled.
- Search order is non-strict on both sides: the in-order key sequence is non-decreasing. A rule that left keys are strictly smaller does not survive the code. `__put` puts equal keys to the right, but a rotation can move an equal key to the left of its twin. The model follows the code.
- `RbTrees.RbTree.UnlinkTwo` finds the successor with `InorderSuccessor`, the corrected version (see Findings). `delete` only asks for the successor of a node with a right child, and there both versions return the same node.
- The logarithmic height bound is not modelled. It is a cost claim that the code does not use.

## Findings

| source | as written | input that shows it | evidently intended | confidence | as-written member | corrected member |
|---|---|---|---|---|---|---|
| rb_tree.py:197 | `if current_node.right:` tests a node object. The sentinel is an object too, so the test is always true and the walk up the parents (lines 203-208) never runs. | Insert 5, then 1. `find_successor(1)` returns the sentinel, although 5 follows 1 in in-order. | A node without a right subtree gets its nearest ancestor that holds it in its left subtree. | not executed | RbTrees.RbTree.FindSuccessor, Successor.AsWrittenSuccessorMisses | RbTrees.RbTree.InorderSuccessor, Successor.SuccessorIsNext |
| rb_tree.py:209-212 | `if successor:` is always true for the same reason, so the `None` branch is dead. | In the same tree, `find_successor(5)` returns the sentinel object, not `None`. | The last node in in-order has no successor (`None`). | not executed | RbTrees.RbTree.FindSuccessor, Successor.AsWrittenSuccessorMisses | RbTrees.RbTree.InorderSuccessor |
