# Red-black tree and data-structure guesser, in Dafny

This project models two programs and proves properties of them.

**The red-black tree of `RBTree/tree.hpp`.** This is a `Node`/`RBTree` pair over a generic key type.

- Keys here are integers. The nodes live in an arena: `nodes: seq<Node>` in the class `RBTree`, with a pointer being a position and `Null` (-1) the null pointer.
- A ghost field `shape` records the tree the links spell out. `Valid()` ties the two together:
  - every link stays inside the arena;
  - children and parents agree;
  - no node occurs twice;
  - the keys, read in in-order, never increase.

  The last point is the order the source builds: a key smaller than a node's goes to its right, and a greater or equal one goes to its left.
- Every structural change is a replacement of one subtree of `shape` by another. This covers a rotation, hanging a new leaf and unlinking a node. Module `Shape` proves once what such a replacement does to:
  - the in-order;
  - the set of nodes;
  - depths.

  Module `Links` says which field writes keep the arena spelling out the shape.
- The methods of `RBTree` perform the source's field writes in the source's order:
  - insertion with its colour checks;
  - the four rotations;
  - search;
  - successor;
  - the structural part of removal;
  - height.

**The classifier of `guess_data_struct/guess.cpp`.** One test case is a list of (command, value) pairs. It is replayed against a stack, a FIFO queue and a max priority queue at once.

- Command 1 pushes the value onto all three structures.
- Command 2 pops all three. A pop clears the flag of each structure that returned a different value, or clears every flag when the structures are empty.
- Any other command is ignored.
- The three flags, read as a 3-bit number, give the verdict.

In the model:
- `Classify` is that loop, over local sequences.
- `Replay` is the state the loop builds, defined command by command.
- The lemmas characterise each flag by the pops it survived, and the verdict by the number of flags that survived.

Modules:
- `Shape`: shapes, subtrees, replacement, in-order, depth and longest paths.
- `Links`: nodes, arena links and in-order keys.
- `Descent`: the key-descent path, attaching a leaf and unlinking.
- `Rotations`: rotation frames.
- `RedBlackTree`: the class.
- `Findings`: the defects listed below.
- `Guess`: the classifier.

## Model

| member | source | states |
|---|---|---|
| RedBlackTree.RBTree.constructor | RBTree/tree.hpp:63 | a new tree is valid, has no keys and a null root |
| RedBlackTree.RBTree.Allocate | RBTree/tree.hpp:17-22 | a new node is appended red, with no links and the given key; the tree and its keys are unchanged |
| RedBlackTree.RBTree.Paint | RBTree/tree.hpp:253-256 | a `->black = …` write, as in checkColor (line 203), correctTree (231-234) and rotate (253-283): node `i` takes the colour, everything else is unchanged, and the tree stays valid with the same keys |
| RedBlackTree.RBTree.IsBlack | RBTree/tree.hpp:45-51 | a null pointer counts as black; a node reports its own colour |
| RedBlackTree.RBTree.Grandparent | RBTree/tree.hpp:24-31 | null exactly for the root and its children; otherwise the tree node two levels up whose subtree holds `n`, i.e. the parent's parent |
| RedBlackTree.RBTree.SetLeft | RBTree/tree.hpp:33-37 | `l` becomes `n`'s left child and `n` becomes `l`'s parent; no other field changes |
| RedBlackTree.RBTree.SetRight | RBTree/tree.hpp:39-43 | the mirror image of SetLeft |
| Links.ReplaceChild | RBTree/tree.hpp:306-311 | the parent's slot that held the rotated node now holds its replacement, and the other slot is kept (the comparison as intended) |
| Shape.RotateLeftKeeps | RBTree/tree.hpp:293-316 | a left rotation keeps the in-order and the set of nodes |
| Shape.RotateRightKeeps | RBTree/tree.hpp:323-346 | a right rotation keeps the in-order and the set of nodes |
| Rotations.LeftRotateKeeps | RBTree/tree.hpp:293-316 | after the writes of a left rotation, the arena is closed and spells out the rotated shape, links agree, the keys and their in-order are kept, the right child becomes the root when the pivot had no parent, and it takes the pivot's depth |
| Rotations.RightRotateKeeps | RBTree/tree.hpp:323-346 | the mirror image of LeftRotateKeeps |
| RedBlackTree.RBTree.LeftLinks | RBTree/tree.hpp:295-315 | the writes of a left rotation change exactly the pivot, its right child, that child's old left child and the pivot's parent, in the pattern of `Rotations.LeftRotated`; the child becomes the root when the pivot had no parent |
| RedBlackTree.RBTree.RightLinks | RBTree/tree.hpp:325-345 | the mirror image of LeftLinks |
| RedBlackTree.RBTree.LeftRotate | RBTree/tree.hpp:293-316 | the tree stays valid, its shape is the rotated one, the in-order keys are unchanged, the right child takes the pivot's place and depth, and it becomes the root when the pivot was |
| RedBlackTree.RBTree.RightRotate | RBTree/tree.hpp:323-346 | the mirror image of LeftRotate |
| RedBlackTree.RBTree.LeftRightRotate | RBTree/tree.hpp:353-357 | the grandchild `n` takes the grandparent's place and depth, with the parent and grandparent as its children; keys, in-order and colours are kept |
| RedBlackTree.RBTree.RightLeftRotate | RBTree/tree.hpp:364-368 | the mirror image of LeftRightRotate |
| RedBlackTree.RBTree.RepaintSingle | RBTree/tree.hpp:253-256 | after a single rotation: `n` ends red, its parent black, that parent's right child (if any) red; every other colour, every link and every key is unchanged (the mirror case is lines 272-275) |
| RedBlackTree.RBTree.RepaintDouble | RBTree/tree.hpp:262-264 | after a double rotation: `n` ends black and both its children red; every other colour, every link and every key is unchanged (the mirror case is lines 281-283) |
| RedBlackTree.RBTree.Rotate | RBTree/tree.hpp:243-286 | keys and in-order kept; afterwards `n` is the black root or has a parent strictly higher than `n` was |
| RedBlackTree.RBTree.CorrectTree | RBTree/tree.hpp:219-235 | keys and in-order kept; `n` ends as the black root or below a parent strictly higher than `n` was |
| RedBlackTree.RBTree.CheckColor | RBTree/tree.hpp:199-211 | walking up from `n` terminates, keeps the keys and their in-order, and leaves the root black |
| Descent.OnPathStep | RBTree/tree.hpp:165-188 | the descent continues right for a smaller key and left for a greater or equal one |
| Descent.AttachOnPath | RBTree/tree.hpp:163-188 | the new leaf lies at the end of its key's descent path |
| Descent.AttachIds | RBTree/tree.hpp:163-188 | attaching adds exactly the new node, keeps the tree free of sharing and keeps its root |
| Descent.AttachCount | RBTree/tree.hpp:163-188 | attaching adds exactly the new key to the multiset of keys |
| Descent.AttachOrder | RBTree/tree.hpp:163-188 | attaching by the descent rule keeps the in-order keys non-increasing |
| Descent.AttachKeeps | RBTree/tree.hpp:167-184 | the two field writes that hang the leaf give a valid arena for the attached shape, with the old keys plus the new one |
| RedBlackTree.RBTree.InsertBelow | RBTree/tree.hpp:163-191 | the tree stays valid, gains exactly the new node and its key, and ends with a black root |
| RedBlackTree.RBTree.Insert | RBTree/tree.hpp:71-82 | one node and exactly the key `v` are added and the root is black; into an empty tree the new node becomes the root and the only key |
| Descent.DescendingNd | RBTree/tree.hpp:392-407 | keys of a left subtree are at least the node's, those of a right subtree at most, which is what lets search discard a side |
| RedBlackTree.RBTree.Search | RBTree/tree.hpp:392-407 | changes nothing; the result is null exactly when the key is absent, and otherwise a tree node holding the key on the key's descent path |
| Descent.SuccessorSplit | RBTree/tree.hpp:417-422 | the leftmost node of the right subtree has no left child and comes right after the node in in-order |
| RedBlackTree.RBTree.Successor | RBTree/tree.hpp:415-434 | the first node in in-order of the right subtree, else the last of the left subtree, else null |
| Descent.UnlinkKeys | RBTree/tree.hpp:92-112 | unlinking the node or its successor and copying the key leaves the in-order keys minus exactly the entry of the removed node |
| Descent.UnlinkLinked | RBTree/tree.hpp:99-110 | after the splice writes, the arena is closed and spells out the shape without the unlinked node, and nothing is shared |
| Descent.SpliceUnlinks | RBTree/tree.hpp:99-112 | the splice's three writes change only the parent, the child and the copied key |
| Descent.UnlinkKeeps | RBTree/tree.hpp:92-112 | unlinking keeps the tree valid and non-increasing, and loses exactly one node and the key entry of the removed node |
| Descent.SpliceKeeps | RBTree/tree.hpp:99-112 | the splice's three writes leave a well-formed arena for the shape without the unlinked node, one node fewer, and the in-order keys without the entry of the removed node |
| RedBlackTree.RBTree.Unlink | RBTree/tree.hpp:92-112 | valid after, one node fewer, and the in-order keys equal the old ones with the removed node's entry taken out |
| RedBlackTree.RBTree.Splice | RBTree/tree.hpp:99-112 | unlinking the node with at most one child, handing its child to its parent and copying its key keeps the tree valid, loses one node, and drops exactly the entry of the removed node from the in-order keys |
| RedBlackTree.RBTree.Remove | RBTree/tree.hpp:85-112 | an absent key changes nothing; a present key loses one occurrence at its place in the in-order, the key multiset drops it, and one node leaves the tree |
| Shape.DeepestIsLongest | RBTree/tree.hpp:376-384 | the chosen path reaches a node and no downward path that reaches a node is longer |
| RedBlackTree.RBTree.HeightAt | RBTree/tree.hpp:376-384 | 0 for null, otherwise the number of nodes on a longest downward path |
| RedBlackTree.RBTree.Height | RBTree/tree.hpp:122-128 | 0 for the empty tree; otherwise the length in edges of a longest path from the root, which some path reaches and none exceeds |
| Findings.ReplaceChildAsWritten | RBTree/tree.hpp:308 | as written, the parent update differs from the intended one whenever the rotated node was a right child |
| Findings.LeftRotateArena | RBTree/tree.hpp:293-316 | `leftRotate` on a plain arena, with the parent test as written or as intended; the arena keeps its size and `x` ends under its former right child |
| Findings.LeftRotateArenaIntended | RBTree/tree.hpp:293-316 | as intended, `LeftRotateArena` performs exactly the writes `Rotations.LeftRotated` describes, with the former right child as the new root when `x` was the root |
| Findings.RightRotateArena | RBTree/tree.hpp:323-346 | `rightRotate` on a plain arena, as written or as intended; the arena keeps its size and `x` ends under its former left child |
| Findings.RightRotateArenaIntended | RBTree/tree.hpp:323-346 | as intended, `RightRotateArena` performs exactly the writes `Rotations.RightRotated` describes |
| Findings.LeftRotateAsWrittenLosesChild | RBTree/tree.hpp:306-311 | on a concrete tree, left rotation at a right child as written drops a subtree and leaves a node hanging twice; as intended it does not |
| Findings.RightRotateAsWrittenLosesChild | RBTree/tree.hpp:336-341 | the same for right rotation |
| Findings.CorrectTreeTailAsWritten | RBTree/tree.hpp:233-234 | the final write faults exactly when `n` has no parent |
| Findings.ZigZagAtRootAsWritten | RBTree/tree.hpp:219-235 | inserting 10, 5, 7 leads either to the write through 7's null parent (rotations corrected) or to painting 7's missing left child at line 264 (rotations as written) |
| Findings.ZagZigAtRootAsWritten | RBTree/tree.hpp:219-235 | inserting 10, 20, 15 with every line as written lifts 15 to the root with no parent, and the last write of `correctTree` dereferences that null parent |
| Findings.SpliceAsWritten | RBTree/tree.hpp:99-110 | the splice as written faults exactly when the node to unlink has no parent |
| Findings.SpliceAsWrittenLosesChild | RBTree/tree.hpp:99-103 | after inserting 10, 15, 5 and 3, the splice writes of removing 5 as written leave 10 with only 15 and no remaining node holding 3; `correctAfterDelete` then reads through the null sibling (line 475) |
| Findings.SpliceAsWrittenAtRoot | RBTree/tree.hpp:99 | removing the only key of a one-node tree reaches the null-parent test |
| Guess.Max | guess_data_struct/guess.cpp:44 | the top of the priority queue is a value in it that is at least every value in it |
| Guess.RemoveOne | guess_data_struct/guess.cpp:45 | popping the priority queue removes exactly one occurrence of the top |
| Guess.Step | guess_data_struct/guess.cpp:25-49 | one command keeps the three structures the same size |
| Guess.Replay | guess_data_struct/guess.cpp:22-50 | the three structures always hold the same number of values |
| Guess.TextNamesVerdict | guess_data_struct/guess.cpp:62-76 | each verdict prints its own line (`Text`), and no two verdicts print the same one |
| Guess.VerdictOf | guess_data_struct/guess.cpp:53-77 | the 3-bit reading of the flags gives "impossible" iff no flag is set, each name iff only its flag is set, and "not sure" iff two or more are set |
| Guess.Classify | guess_data_struct/guess.cpp:13-77 | the loop over the commands gives the verdict of the flags `Replay` ends with |
| Guess.PushAddsToAll | guess_data_struct/guess.cpp:27-31 | a push puts the value on top of the stack, at the back of the queue and into the bag, and leaves the flags |
| Guess.PopOnEmptyClears | guess_data_struct/guess.cpp:35 | a pop on empty structures clears all three flags and leaves the structures empty |
| Guess.OtherCommandIgnored | guess_data_struct/guess.cpp:47-48 | a command other than 1 and 2 changes nothing |
| Guess.FlagsMonotone | guess_data_struct/guess.cpp:35-45 | a flag set after the whole trace was set after every prefix of it |
| Guess.StepFlag | guess_data_struct/guess.cpp:35-45 | one command keeps a flag exactly when it was set and the command's pop, if any, matched that structure |
| Guess.FlagTrace | guess_data_struct/guess.cpp:22-50 | a flag survives a trace exactly when every pop in it matched its structure |
| Guess.FlagKept | guess_data_struct/guess.cpp:22-50 | a flag set after a trace means every pop of the trace matched its structure |
| Guess.FlagLost | guess_data_struct/guess.cpp:22-50 | a flag cleared after a trace means some pop of the trace did not match its structure |
| Guess.StackFlag | guess_data_struct/guess.cpp:38-39 | the stack flag survives iff every pop met a non-empty stack and returned the latest pushed value not yet popped |
| Guess.QueueFlag | guess_data_struct/guess.cpp:41-42 | the queue flag survives iff every pop met a non-empty queue and returned the earliest pushed value not yet popped |
| Guess.PriorityQueueFlag | guess_data_struct/guess.cpp:44-45 | the priority-queue flag survives iff every pop met a non-empty bag and returned its maximum |
| Guess.EmptyPopImpossible | guess_data_struct/guess.cpp:35 | a pop on empty structures anywhere in a test case makes its verdict "impossible" |

## Left out

- Printing is not modelled. That covers both `print` overloads, the ANSI colour macros, the demo driver `RBTree/main.cpp`, and the input loop and output lines of `guess.cpp`. The verdict is returned as a value (`Guess.Text` gives its line).
- Keys are unbounded integers rather than a generic ordered `T`.
- In `guess.cpp`, values are read as `size_t` and narrowed to `int` when pushed. That narrowing is not modelled: values are integers throughout.
- `new` and `delete` are not modelled. Allocation appends to the arena. A removed node stays in the arena, unreachable from the root.
- `correctAfterDelete` is not modelled. It can read a child of a null sibling, it falls through between its cases, and it is called on a node that was already unlinked. `Remove` therefore has only its key and shape contract, and it does no recolouring.
- RedBlackTree.RBTree.Insert: does not state the red-black colour invariants (no red node with a red parent, equal black height on every path), only that the root is black. The position of the new leaf is stated on the shape before recolouring, by `Descent.AttachOnPath` and `Descent.AttachKeeps`.
- RedBlackTree.RBTree.CheckColor: states the preserved keys and order and the black root, not the colour invariants it aims to restore.
- RedBlackTree.RBTree.CorrectTree: states how the node moves up and what is preserved, not the colours of the uncle and grandparent.
- RedBlackTree.RBTree.Rotate: states the preserved keys and order and the position of `n`, not its colour writes, apart from a black root.
- RedBlackTree.RBTree.Remove: states which key entry leaves and that one node leaves, but not which node.
- Node constructor: the source's constructor leaves the new node's `parent` field unset, because its `parent` parameter shadows the field. The model takes it as null (`Links.Fresh`), which every caller assumes.
- Rotations use the comparison the comment intends, not the assignment at lines 308 and 338 (see Findings).
- RedBlackTree.RBTree.CorrectTree: skips the final write to `n`'s parent when a double rotation has made `n` the root. The source writes through a null pointer there (line 234).
- RedBlackTree.RBTree.CheckColor: recurses on the parent only when it exists. In the source, line 210 would recurse on null after that case.
- RedBlackTree.RBTree.Unlink: splices in whichever child the unlinked node has. When that node is the root, its child becomes the new root. The source dereferences the missing parent there (line 99) and picks the child by the wrong side (see Findings).

## Findings

| source | as written | input that shows it | evidently intended | confidence | as-written member | corrected member |
|---|---|---|---|---|---|---|
| RBTree/tree.hpp:308 | the parent test in `leftRotate` assigns the pivot to the parent's left slot instead of comparing, so the new top always lands in the left slot | root 20 with 30 on its left and 10 on its right, 5 right of 10; left rotation at 10 drops 30, and 10 hangs both from 20 and from 5 | compare with `==`, so the slot that held the pivot takes the new top | high (not executed) | Findings.LeftRotateAsWrittenLosesChild | RedBlackTree.RBTree.LeftRotate |
| RBTree/tree.hpp:338 | the same assignment in `rightRotate` | root 20 with 30 on its left and 10 on its right, 15 left of 10; right rotation at 10 drops 30 | compare with `==` | high (not executed) | Findings.RightRotateAsWrittenLosesChild | RedBlackTree.RBTree.RightRotate |
| RBTree/tree.hpp:234 | after a double rotation at the root, the node is the root and has no parent, yet `correctTree` paints its parent and `checkColor` (line 210) recurses on it | insert 10, 20, 15 (with 10, 5, 7 the as-written rotation faults earlier, at line 264) | skip both when the node has become the (black) root | high (not executed) | Findings.ZagZigAtRootAsWritten | RedBlackTree.RBTree.CorrectTree |
| RBTree/tree.hpp:99-110 | the parent of the unlinked node takes its left child if it is a right child, and its right child otherwise, whichever child it actually has | insert 10, 15, 5 and 3 (10 over 15 and 5, 3 right of 5); remove 5: the splice gives 10's right slot 5's missing left child, so 3 is lost, and `correctAfterDelete` then reads through the null sibling (line 475) | the parent takes the one child the unlinked node has | high (not executed) | Findings.SpliceAsWrittenLosesChild | RedBlackTree.RBTree.Unlink |
| RBTree/tree.hpp:99 | the splice reads the parent of the unlinked node, which is null when that node is the root | a one-node tree; remove its key | the root's child becomes the root | high (not executed) | Findings.SpliceAsWrittenAtRoot | RedBlackTree.RBTree.Unlink |
