/** Defects of RBTree/tree.hpp, each shown on a concrete arena.

    The arenas here are plain sequences of `Links.Node` records, and the
    writes are the source's own, in its order. The corrected behaviour is
    what the `RedBlackTree` module implements and proves. */
module Findings {
  import opened Links
  import opened Rotations

  datatype Option<T> = None | Some(value: T)

  /** The parent update of `leftRotate` and `rightRotate` as written: the
      test `node->parent->left = node` assigns instead of comparing, so it
      always holds, and the parent's left slot ends up holding `y` whichever
      slot held `x`. */
  function ReplaceChildAsWritten(n: Node, x: int, y: int): (m: Node)
    ensures n.left != x && n.right == x && x != y ==> m != ReplaceChild(n, x, y)
  {
    n.(left := y)
  }

  /** `leftRotate(x)` on an arena with root `root`, with the parent test as
      written (`asWritten`) or as intended. */
  function LeftRotateArena(nodes: seq<Node>, root: int, x: int, asWritten: bool): (r: (seq<Node>, int))
    requires 0 <= x < |nodes| && 0 <= nodes[x].right < |nodes|
    requires Ref(nodes[nodes[x].right].left, |nodes|) && Ref(nodes[x].parent, |nodes|)
    ensures |r.0| == |nodes| && r.0[x].parent == nodes[x].right
  {
    var y := nodes[x].right;
    var n1 := nodes[x := nodes[x].(right := nodes[y].left)];
    var b := n1[x].right;
    var n2 := if b != Null then n1[b := n1[b].(parent := x)] else n1;
    var q := n2[x].parent;
    var (n3, root') :=
      if q == Null then (n2[y := n2[y].(parent := Null)], y)
      else
        var m := n2[y := n2[y].(parent := q)];
        (m[q := if asWritten then ReplaceChildAsWritten(m[q], x, y) else ReplaceChild(m[q], x, y)], root);
    var n4 := n3[y := n3[y].(left := x)];
    (n4[x := n4[x].(parent := y)], root')
  }

  /** `rightRotate(x)`, the mirror image of `LeftRotateArena`. */
  function RightRotateArena(nodes: seq<Node>, root: int, x: int, asWritten: bool): (r: (seq<Node>, int))
    requires 0 <= x < |nodes| && 0 <= nodes[x].left < |nodes|
    requires Ref(nodes[nodes[x].left].right, |nodes|) && Ref(nodes[x].parent, |nodes|)
    ensures |r.0| == |nodes| && r.0[x].parent == nodes[x].left
  {
    var y := nodes[x].left;
    var n1 := nodes[x := nodes[x].(left := nodes[y].right)];
    var b := n1[x].left;
    var n2 := if b != Null then n1[b := n1[b].(parent := x)] else n1;
    var q := n2[x].parent;
    var (n3, root') :=
      if q == Null then (n2[y := n2[y].(parent := Null)], y)
      else
        var m := n2[y := n2[y].(parent := q)];
        (m[q := if asWritten then ReplaceChildAsWritten(m[q], x, y) else ReplaceChild(m[q], x, y)], root);
    var n4 := n3[y := n3[y].(right := x)];
    (n4[x := n4[x].(parent := y)], root')
  }

  /** As intended, `LeftRotateArena` is the left rotation the tree's own
      `LeftRotate` performs: the relation `LeftRotated`, with `y` at the top
      when `x` was the root. */
  lemma {:induction false} LeftRotateArenaIntended(nodes: seq<Node>, root: int, x: int)
    requires 0 <= x < |nodes| && 0 <= nodes[x].right < |nodes|
    requires Ref(nodes[nodes[x].right].left, |nodes|) && Ref(nodes[x].parent, |nodes|)
    requires var y, b, q := nodes[x].right, nodes[nodes[x].right].left, nodes[x].parent;
      y != x && b != x && b != y && q != x && q != y && (b != Null ==> b != q)
    ensures var y, b, q := nodes[x].right, nodes[nodes[x].right].left, nodes[x].parent;
      var (after, root') := LeftRotateArena(nodes, root, x, false);
      && |after| == |nodes| && LeftRotated(nodes, after, x, y, b, q)
      && root' == (if q == Null then y else root)
  {
  }

  /** As intended, `RightRotateArena` is the relation `RightRotated`. */
  lemma {:induction false} RightRotateArenaIntended(nodes: seq<Node>, root: int, x: int)
    requires 0 <= x < |nodes| && 0 <= nodes[x].left < |nodes|
    requires Ref(nodes[nodes[x].left].right, |nodes|) && Ref(nodes[x].parent, |nodes|)
    requires var y, b, q := nodes[x].left, nodes[nodes[x].left].right, nodes[x].parent;
      y != x && b != x && b != y && q != x && q != y && (b != Null ==> b != q)
    ensures var y, b, q := nodes[x].left, nodes[nodes[x].left].right, nodes[x].parent;
      var (after, root') := RightRotateArena(nodes, root, x, false);
      && |after| == |nodes| && RightRotated(nodes, after, x, y, b, q)
      && root' == (if q == Null then y else root)
  {
  }

  /** Keys 20 at the root, 30 to its left, 10 to its right and 5 below 10
      on the right (smaller keys go right). */
  function LeftCase(): seq<Node>
  {
    [Node(20, 1, 2, Null, true), Node(30, Null, Null, 0, true),
     Node(10, Null, 3, 0, true), Node(5, Null, Null, 2, false)]
  }

  /** Rotating left at the right child 10 as written: the root's left slot
      takes 5, so 30 is no longer anyone's child, and 10 hangs both from
      the root and from 5. As intended, 30 stays and 5 takes 10's slot. */
  lemma {:induction false} LeftRotateAsWrittenLosesChild()
    ensures var (b, root) := LeftRotateArena(LeftCase(), 0, 2, true);
      && root == 0 && b[0].left == 3 && b[0].right == 2 && b[3].left == 2
      && forall i :: 0 <= i < |b| ==> b[i].left != 1 && b[i].right != 1
    ensures var (b, root) := LeftRotateArena(LeftCase(), 0, 2, false);
      root == 0 && b[0].left == 1 && b[0].right == 3 && b[3].left == 2
  {
  }

  /** Keys 20 at the root, 30 to its left, 10 to its right and 15 below 10
      on the left. */
  function RightCase(): seq<Node>
  {
    [Node(20, 1, 2, Null, true), Node(30, Null, Null, 0, true),
     Node(10, 3, Null, 0, true), Node(15, Null, Null, 2, false)]
  }

  /** Rotating right at the right child 10 as written loses 30 in the same
      way; as intended, 15 takes 10's slot. */
  lemma {:induction false} RightRotateAsWrittenLosesChild()
    ensures var (b, root) := RightRotateArena(RightCase(), 0, 2, true);
      && root == 0 && b[0].left == 3 && b[0].right == 2 && b[3].right == 2
      && forall i :: 0 <= i < |b| ==> b[i].left != 1 && b[i].right != 1
    ensures var (b, root) := RightRotateArena(RightCase(), 0, 2, false);
      root == 0 && b[0].left == 1 && b[0].right == 3 && b[3].right == 2
  {
  }

  /** The last two writes of `correctTree` as written: the grandparent
      turns red and `n`'s parent black; None where that parent is null and
      the write dereferences it. */
  function CorrectTreeTailAsWritten(nodes: seq<Node>, n: int, g: int): (r: Option<seq<Node>>)
    requires 0 <= n < |nodes| && 0 <= g < |nodes| && Ref(nodes[n].parent, |nodes|)
    ensures r.None? <==> nodes[n].parent == Null
  {
    var n1 := nodes[g := nodes[g].(black := false)];
    var p := n1[n].parent;
    if p == Null then None else Some(n1[p := n1[p].(black := true)])
  }

  /** Inserting 10, 5 and 7: 5 goes right of 10, and 7 left of 5. */
  function ZigZag(): seq<Node>
  {
    [Node(10, Null, 1, Null, true), Node(5, 2, Null, 0, false), Node(7, Null, Null, 1, false)]
  }

  /** `checkColor(7)` finds 7 and 5 red, with a missing (black) uncle, and
      `rotate` does `rightLeftRotate(10)`. With the rotations corrected, 7
      becomes the root, with no parent, and is painted black with red
      children; the final write of `correctTree` then dereferences 7's null
      parent (and `checkColor` would recurse on it next). With the
      rotations as written, `rightRotate(5)` (5 being a right child) leaves
      7 without a left child, which `rotate` paints, dereferencing null. */
  lemma {:induction false} ZigZagAtRootAsWritten()
    ensures var (b1, s1) := RightRotateArena(ZigZag(), 0, 1, true);
      var (b2, s2) := LeftRotateArena(b1, s1, 0, true);
      b2[2].left == Null
    ensures var (a1, r1) := RightRotateArena(ZigZag(), 0, 1, false);
      var (a2, r2) := LeftRotateArena(a1, r1, 0, false);
      var a3 := a2[2 := a2[2].(black := true)];
      var a4 := a3[a3[2].right := a3[a3[2].right].(black := false)];
      var a5 := a4[a4[2].left := a4[a4[2].left].(black := false)];
      && r2 == 2 && a5[2].parent == Null && a5[2].left == 0 && a5[2].right == 1
      && CorrectTreeTailAsWritten(a5, 2, 0) == None
  {
  }

  /** Inserting 10, 20 and 15: 20 goes left of 10, and 15 right of 20. */
  function ZagZig(): seq<Node>
  {
    [Node(10, 1, Null, Null, true), Node(20, Null, 2, 0, false), Node(15, Null, Null, 1, false)]
  }

  /** `checkColor(15)` finds 15 and 20 red with a missing uncle, and `rotate`
      does `leftRightRotate(10)`. Its first rotation, at the left child 20,
      is unharmed by the assignment of line 308; the second, at the root,
      lifts 15 to the root with no parent. `rotate` paints 15 black and its
      children red, and then the final write of `correctTree` dereferences
      15's null parent, with every line exactly as written. */
  lemma {:induction false} ZagZigAtRootAsWritten()
    ensures var (b1, s1) := LeftRotateArena(ZagZig(), 0, 1, true);
      var (b2, s2) := RightRotateArena(b1, s1, 0, true);
      var b3 := b2[2 := b2[2].(black := true)];
      var b4 := b3[b3[2].right := b3[b3[2].right].(black := false)];
      var b5 := b4[b4[2].left := b4[b4[2].left].(black := false)];
      && s2 == 2 && b5[2].parent == Null && b5[2].left == 1 && b5[2].right == 0
      && CorrectTreeTailAsWritten(b5, 2, 0) == None
  {
  }

  /** The splice of `remove` as written, unlinking `s`: if `s` is its
      parent's right child, the parent's right slot takes `s`'s LEFT child,
      otherwise its left slot takes `s`'s RIGHT child. None where `s` has no
      parent and the test dereferences null. */
  function SpliceAsWritten(nodes: seq<Node>, s: int): (r: Option<seq<Node>>)
    requires 0 <= s < |nodes| && Ref(nodes[s].parent, |nodes|)
    requires Ref(nodes[s].left, |nodes|) && Ref(nodes[s].right, |nodes|)
    ensures r.None? <==> nodes[s].parent == Null
  {
    var q := nodes[s].parent;
    if q == Null then None
    else if nodes[q].right == s then
      var c := nodes[s].left;
      var n1 := nodes[q := nodes[q].(right := c)];
      Some(if c != Null then n1[c := n1[c].(parent := q)] else n1)
    else
      var c := nodes[s].right;
      var n1 := nodes[q := nodes[q].(left := c)];
      Some(if c != Null then n1[c := n1[c].(parent := q)] else n1)
  }

  /** Inserting 10, 15, 5 and 3: 15 goes left of 10 and 5 right of it, 3
      right of 5; the red uncle 15 makes the last insert only recolour, so
      10, 15 and 5 end black and 3 red. */
  function FourKeys(): seq<Node>
  {
    [Node(10, 1, 2, Null, true), Node(15, Null, Null, 0, true),
     Node(5, Null, 3, 0, true), Node(3, Null, Null, 2, false)]
  }

  /** Removing 5 from `FourKeys`: it has no left child, so it is unlinked
      itself; as the right child of 10 it hands its (missing) left child to
      10, so the splice leaves 10 with only 15 and no remaining node holds
      3. (`correctAfterDelete(5)` then takes 10's now empty right slot as
      5's sibling and reads through it.) */
  lemma {:induction false} SpliceAsWrittenLosesChild()
    ensures var r := SpliceAsWritten(FourKeys(), 2);
      && r.Some? && r.value[0].left == 1 && r.value[0].right == Null
      && r.value[1].left == Null && r.value[1].right == Null
  {
  }

  /** Removing the only key of a one-node tree: the node to unlink is the
      root and has no parent to test. */
  lemma {:induction false} SpliceAsWrittenAtRoot()
    ensures SpliceAsWritten([Node(7, Null, Null, Null, true)], 0) == None
  {
  }
}
