/** What `leftRotate` and `rightRotate` of RBTree/tree.hpp do to the arena,
    stated as a relation between the arena before (`nodes`) and after
    (`nodes'`), and the shape that the links spell out afterwards. */
module Rotations {
  import opened Shape
  import opened Links

  /** The arena after a left rotation at `x`, whose right child `y` moves
      up: `y` takes `x`'s place under `x`'s parent `q`, `x` becomes `y`'s
      left child and takes over `y`'s former left subtree (top `b`). */
  ghost predicate LeftRotated(nodes: seq<Node>, nodes': seq<Node>, x: nat, y: nat, b: int, q: int)
    requires x < |nodes| && y < |nodes| && |nodes'| == |nodes|
    requires Ref(b, |nodes|) && Ref(q, |nodes|)
  {
    && nodes'[y] == nodes[y].(left := x, parent := q)
    && nodes'[x] == nodes[x].(right := b, parent := y)
    && (b != Null ==> nodes'[b] == nodes[b].(parent := x))
    && (q != Null ==> nodes'[q] == ReplaceChild(nodes[q], x, y))
    && (forall i :: 0 <= i < |nodes| && i != x && i != y && i != b && i != q ==> nodes'[i] == nodes[i])
  }

  /** The mirror image: the left child `y` of `x` moves up, `x` becomes its
      right child and takes over `y`'s former right subtree (top `b`). */
  ghost predicate RightRotated(nodes: seq<Node>, nodes': seq<Node>, x: nat, y: nat, b: int, q: int)
    requires x < |nodes| && y < |nodes| && |nodes'| == |nodes|
    requires Ref(b, |nodes|) && Ref(q, |nodes|)
  {
    && nodes'[y] == nodes[y].(right := x, parent := q)
    && nodes'[x] == nodes[x].(left := b, parent := y)
    && (b != Null ==> nodes'[b] == nodes[b].(parent := x))
    && (q != Null ==> nodes'[q] == ReplaceChild(nodes[q], x, y))
    && (forall i :: 0 <= i < |nodes| && i != x && i != y && i != b && i != q ==> nodes'[i] == nodes[i])
  }

  /** Replacing the subtree at `x` by one with the same slots in the same
      in-order, as a rotation does, keeps the slots, the in-order sequence
      and distinctness, and puts the new top at the depth `x` had. */
  lemma {:induction false} ReplaceKeeps(t: Tree, x: nat, u: Tree)
    requires Distinct(t) && x in Ids(t) && u.Nd? && Distinct(u)
    requires Ids(u) == Ids(Sub(t, x)) && Order(u) == Order(Sub(t, x))
    ensures Distinct(Replace(t, x, u))
    ensures Ids(Replace(t, x, u)) == Ids(t)
    ensures Order(Replace(t, x, u)) == Order(t)
    ensures RootOf(Replace(t, x, u)) == if x == RootOf(t) then u.id else RootOf(t)
    ensures u.id in Ids(Replace(t, x, u)) && Depth(Replace(t, x, u), u.id) == Depth(t, x)
  {
    ReplaceIds(t, x, u);
    ReplaceDistinct(t, x, u);
    SplitAt(t, x, u);
    ReplaceDepth(t, x, u);
  }

  /** The rotated subtree itself is linked below `x`'s old parent. */
  lemma {:induction false} LeftSubLinked(s: Tree, nodes: seq<Node>, nodes': seq<Node>, q: int)
    requires Linked(s, nodes, q) && Distinct(s) && s.Nd? && s.right.Nd?
    requires q == Null || q !in Ids(s)
    requires |nodes'| == |nodes| && Ref(q, |nodes|) && Within(s, |nodes|)
    requires s.id < |nodes| && s.right.id < |nodes| && Ref(RootOf(s.right.left), |nodes|)
    requires LeftRotated(nodes, nodes', s.id, s.right.id, RootOf(s.right.left), q)
    ensures Linked(RotateLeft(s), nodes', q)
  {
    var a, x, y, bT, c := s.left, s.id, s.right.id, s.right.left, s.right.right;
    assert Ids(s) == Ids(a) + {x} + Ids(bT) + {y} + Ids(c);
    Relinked(a, nodes, nodes', x, x);
    Relinked(bT, nodes, nodes', y, x);
    Relinked(c, nodes, nodes', y, y);
    assert Linked(Nd(a, x, bT), nodes', y);
  }

  /** The mirror image of `LeftSubLinked`. */
  lemma {:induction false} RightSubLinked(s: Tree, nodes: seq<Node>, nodes': seq<Node>, q: int)
    requires Linked(s, nodes, q) && Distinct(s) && s.Nd? && s.left.Nd?
    requires q == Null || q !in Ids(s)
    requires |nodes'| == |nodes| && Ref(q, |nodes|) && Within(s, |nodes|)
    requires s.id < |nodes| && s.left.id < |nodes| && Ref(RootOf(s.left.right), |nodes|)
    requires RightRotated(nodes, nodes', s.id, s.left.id, RootOf(s.left.right), q)
    ensures Linked(RotateRight(s), nodes', q)
  {
    var a, x, y, bT, c := s.left.left, s.id, s.left.id, s.left.right, s.right;
    assert Ids(s) == Ids(a) + {y} + Ids(bT) + {x} + Ids(c);
    Relinked(a, nodes, nodes', y, y);
    Relinked(bT, nodes, nodes', y, x);
    Relinked(c, nodes, nodes', x, x);
    assert Linked(Nd(bT, x, c), nodes', y);
  }

  /** A left rotation rewires the arena so that it spells out the shape in
      which the subtree at `x` is replaced by its left rotation. */
  lemma {:induction false} LeftRotation(t: Tree, nodes: seq<Node>, nodes': seq<Node>, x: nat)
    requires Linked(t, nodes, Null) && Distinct(t) && x in Ids(t) && Closed(nodes)
    requires x < |nodes| && nodes[x].right != Null && |nodes'| == |nodes|
    requires LeftRotated(nodes, nodes', x, nodes[x].right, nodes[nodes[x].right].left, nodes[x].parent)
    ensures Sub(t, x).right.Nd? && Sub(t, x).right.id == nodes[x].right
    ensures Linked(Replace(t, x, RotateLeft(Sub(t, x))), nodes', Null)
    ensures x == RootOf(t) <==> nodes[x].parent == Null
  {
    var s := Sub(t, x);
    var q := nodes[x].parent;
    LinkedSub(t, nodes, Null, x);
    LinkedWithin(t, nodes, Null);
    LinkedWithin(s, nodes, q);
    SubDistinct(t, x);
    if x != RootOf(t) { ParentAbove(t, nodes, Null, x); }
    var y, b := s.right.id, RootOf(s.right.left);
    LeftSubLinked(s, nodes, nodes', q);
    var u := RotateLeft(s);
    assert {x, y} + (if b == Null then {} else {b}) <= Ids(s);
    forall i | i in Ids(t) && i !in Ids(s) && i != q
      ensures i < |nodes| && i < |nodes'| && SameLinks(nodes'[i], nodes[i])
    {
      assert i != x && i != y && i != b;
    }
    ReplaceLinked(t, nodes, nodes', Null, x, u);
  }

  /** The mirror image of `LeftRotation`. */
  lemma {:induction false} RightRotation(t: Tree, nodes: seq<Node>, nodes': seq<Node>, x: nat)
    requires Linked(t, nodes, Null) && Distinct(t) && x in Ids(t) && Closed(nodes)
    requires x < |nodes| && nodes[x].left != Null && |nodes'| == |nodes|
    requires RightRotated(nodes, nodes', x, nodes[x].left, nodes[nodes[x].left].right, nodes[x].parent)
    ensures Sub(t, x).left.Nd? && Sub(t, x).left.id == nodes[x].left
    ensures Linked(Replace(t, x, RotateRight(Sub(t, x))), nodes', Null)
    ensures x == RootOf(t) <==> nodes[x].parent == Null
  {
    var s := Sub(t, x);
    var q := nodes[x].parent;
    LinkedSub(t, nodes, Null, x);
    LinkedWithin(t, nodes, Null);
    LinkedWithin(s, nodes, q);
    SubDistinct(t, x);
    if x != RootOf(t) { ParentAbove(t, nodes, Null, x); }
    var y, b := s.left.id, RootOf(s.left.right);
    RightSubLinked(s, nodes, nodes', q);
    var u := RotateRight(s);
    assert {x, y} + (if b == Null then {} else {b}) <= Ids(s);
    forall i | i in Ids(t) && i !in Ids(s) && i != q
      ensures i < |nodes| && i < |nodes'| && SameLinks(nodes'[i], nodes[i])
    {
      assert i != x && i != y && i != b;
    }
    ReplaceLinked(t, nodes, nodes', Null, x, u);
  }

  /** Everything a left rotation keeps: the arena stays closed, the links
      spell out the rotated shape, which has the same slots and the same
      in-order sequence, and no key or colour changes. */
  lemma {:induction false} LeftRotateKeeps(t: Tree, nodes: seq<Node>, nodes': seq<Node>, x: nat, root: int, r: int)
    requires WellFormed(t, nodes, root)
    requires x in Ids(t) && x < |nodes| && nodes[x].right != Null && |nodes'| == |nodes|
    requires r == if nodes[x].parent == Null then nodes[x].right else root
    requires LeftRotated(nodes, nodes', x, nodes[x].right, nodes[nodes[x].right].left, nodes[x].parent)
    ensures Sub(t, x).right.Nd? && Sub(t, x).right.id == nodes[x].right
    ensures var t' := Replace(t, x, RotateLeft(Sub(t, x)));
      && Closed(nodes') && Linked(t', nodes', Null) && Distinct(t') && Within(t', |nodes'|)
      && Ids(t') == Ids(t) && Order(t') == Order(t) && Keys(t', nodes') == Keys(t, nodes)
      && RootOf(t') == (if nodes[x].parent == Null then nodes[x].right else RootOf(t))
      && nodes[x].right in Ids(t') && Depth(t', nodes[x].right) == Depth(t, x)
      && WellFormed(t', nodes', r)
    ensures SameKeysAndColours(nodes, nodes')
  {
    LeftRotation(t, nodes, nodes', x);
    var s := Sub(t, x);
    var u := RotateLeft(s);
    RotateLeftKeeps(s);
    SubDistinct(t, x);
    ReplaceKeeps(t, x, u);
    var y, b, q := nodes[x].right, nodes[nodes[x].right].left, nodes[x].parent;
    forall i | 0 <= i < |nodes|
      ensures nodes'[i].data == nodes[i].data && nodes'[i].black == nodes[i].black
      ensures Ref(nodes'[i].left, |nodes|) && Ref(nodes'[i].right, |nodes|) && Ref(nodes'[i].parent, |nodes|)
    {
    }
    KeysFrame(Replace(t, x, u), nodes, nodes');
  }

  /** The mirror image of `LeftRotateKeeps`. */
  lemma {:induction false} RightRotateKeeps(t: Tree, nodes: seq<Node>, nodes': seq<Node>, x: nat, root: int, r: int)
    requires WellFormed(t, nodes, root)
    requires x in Ids(t) && x < |nodes| && nodes[x].left != Null && |nodes'| == |nodes|
    requires r == if nodes[x].parent == Null then nodes[x].left else root
    requires RightRotated(nodes, nodes', x, nodes[x].left, nodes[nodes[x].left].right, nodes[x].parent)
    ensures Sub(t, x).left.Nd? && Sub(t, x).left.id == nodes[x].left
    ensures var t' := Replace(t, x, RotateRight(Sub(t, x)));
      && Closed(nodes') && Linked(t', nodes', Null) && Distinct(t') && Within(t', |nodes'|)
      && Ids(t') == Ids(t) && Order(t') == Order(t) && Keys(t', nodes') == Keys(t, nodes)
      && RootOf(t') == (if nodes[x].parent == Null then nodes[x].left else RootOf(t))
      && nodes[x].left in Ids(t') && Depth(t', nodes[x].left) == Depth(t, x)
      && WellFormed(t', nodes', r)
    ensures SameKeysAndColours(nodes, nodes')
  {
    RightRotation(t, nodes, nodes', x);
    var s := Sub(t, x);
    var u := RotateRight(s);
    RotateRightKeeps(s);
    SubDistinct(t, x);
    ReplaceKeeps(t, x, u);
    var y, b, q := nodes[x].left, nodes[nodes[x].left].right, nodes[x].parent;
    forall i | 0 <= i < |nodes|
      ensures nodes'[i].data == nodes[i].data && nodes'[i].black == nodes[i].black
      ensures Ref(nodes'[i].left, |nodes|) && Ref(nodes'[i].right, |nodes|) && Ref(nodes'[i].parent, |nodes|)
    {
    }
    KeysFrame(Replace(t, x, u), nodes, nodes');
  }
}
