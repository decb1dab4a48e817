/** The red-black tree of RBTree/tree.hpp (`Node<T>` and `RBTree<T>`),
    over integer keys.

    The nodes live in the arena `nodes`; a pointer is a position in it and
    `Null` is the null pointer. The ghost field `shape` is the tree that the
    links spell out; `Valid` ties the two together and says that the keys,
    read in in-order, never increase, which is the order `insert` builds
    (a key smaller than a node's goes to its right). Nodes that leave the
    tree stay in the arena, unreachable, as `delete` is not modelled. */
module RedBlackTree {
  import opened Shape
  import opened Links
  import opened Descent
  import opened Rotations

  class RBTree {
    var nodes: seq<Node>
    var root: int
    ghost var shape: Tree

    ghost predicate Valid()
      reads this
    {
      WellFormed(shape, nodes, root)
    }

    /** The keys in the tree, in in-order. */
    ghost function Contents(): seq<int>
      reads this
    {
      Keys(shape, nodes)
    }

    /** `RBTree()`: the empty tree. */
    constructor ()
      ensures Valid() && Contents() == [] && root == Null && nodes == []
    {
      nodes := [];
      root := Null;
      shape := Nil;
    }

    /** The links around a node of the tree, read off the shape. */
    lemma {:induction false} Neighbours(x: int)
      requires Valid() && x in Ids(shape)
      ensures 0 <= x < |nodes|
      ensures nodes[x].left == RootOf(Sub(shape, x).left) && nodes[x].right == RootOf(Sub(shape, x).right)
      ensures nodes[x].left != Null ==>
        && nodes[x].left in Ids(shape) && Sub(shape, nodes[x].left) == Sub(shape, x).left
        && nodes[nodes[x].left].parent == x && nodes[x].left != nodes[x].right
      ensures nodes[x].right != Null ==>
        && nodes[x].right in Ids(shape) && Sub(shape, nodes[x].right) == Sub(shape, x).right
        && nodes[nodes[x].right].parent == x
      ensures nodes[x].parent == Null <==> x == root
      ensures x == root ==> Depth(shape, x) == 0
      ensures nodes[x].parent != Null ==>
        && nodes[x].parent in Ids(shape)
        && nodes[x].parent !in Ids(Sub(shape, x))
        && Depth(shape, nodes[x].parent) + 1 == Depth(shape, x)
        && (nodes[nodes[x].parent].left == x || nodes[nodes[x].parent].right == x)
    {
      LinkedSub(shape, nodes, Null, x);
      SubChildren(shape, x);
      SubDistinct(shape, x);
      if x != root {
        ParentAbove(shape, nodes, Null, x);
      }
    }

    /** The parent link of a node of the tree that has one, read off the
        shape: the parent is one level higher and holds `x` as a child. */
    lemma {:induction false} Up(x: int)
      requires Valid() && x in Ids(shape) && 0 <= x < |nodes| && nodes[x].parent != Null
      ensures 0 <= nodes[x].parent < |nodes| && nodes[x].parent in Ids(shape)
      ensures Depth(shape, nodes[x].parent) + 1 == Depth(shape, x)
      ensures (nodes[nodes[x].parent].left == x) != (nodes[nodes[x].parent].right == x)
    {
      Neighbours(x);
      Neighbours(nodes[x].parent);
    }

    /** A node with a parent lies in the parent's subtree. */
    lemma {:induction false} UnderParent(x: int)
      requires Valid() && x in Ids(shape) && 0 <= x < |nodes| && nodes[x].parent != Null
      ensures nodes[x].parent in Ids(shape) && x in Ids(Sub(shape, nodes[x].parent))
    {
      Neighbours(x);
      var p := nodes[x].parent;
      Neighbours(p);
      if nodes[p].left == x {
        assert x == RootOf(Sub(shape, p).left);
      } else {
        assert x == RootOf(Sub(shape, p).right);
      }
    }

    /** `new Node<T>(data)`: a red node without links, outside the tree. */
    method Allocate(v: int) returns (nn: int)
      requires Valid()
      modifies this
      ensures Valid() && shape == old(shape) && root == old(root) && Contents() == old(Contents())
      ensures nn == old(|nodes|) && nodes == old(nodes) + [Fresh(v)]
    {
      ghost var before := nodes;
      nn := |nodes|;
      nodes := nodes + [Fresh(v)];
      Relinked(shape, before, nodes, Null, Null);
      KeysFrame(shape, before, nodes);
    }

    /** Sets the colour of node `i`; links, keys and shape stay. */
    method Paint(i: int, black: bool)
      requires Valid() && 0 <= i < |nodes|
      modifies this
      ensures Valid() && shape == old(shape) && root == old(root) && Contents() == old(Contents())
      ensures nodes == old(nodes)[i := old(nodes)[i].(black := black)]
    {
      ghost var before := nodes;
      nodes := nodes[i := nodes[i].(black := black)];
      Relinked(shape, before, nodes, Null, Null);
      KeysFrame(shape, before, nodes);
    }

    /** `Node::isBlack`: a null pointer counts as a black node. */
    function IsBlack(n: int): (b: bool)
      reads this
      requires Ref(n, |nodes|)
      ensures n == Null ==> b
      ensures n != Null ==> (b <==> nodes[n].black)
    {
      if n == Null then true else nodes[n].black
    }

    /** `Node::grandparent`: the node two levels up, null for the root and
        its children. */
    function Grandparent(n: int): (g: int)
      reads this
      requires Valid() && n in Ids(shape)
      ensures g == Null <==> Depth(shape, n) < 2
      ensures g != Null ==> g in Ids(shape) && Depth(shape, g) + 2 == Depth(shape, n)
      ensures g != Null ==> n in Ids(Sub(shape, g))
    {
      Neighbours(n);
      var p := nodes[n].parent;
      if p == Null then Null
      else
        Neighbours(p);
        var g := nodes[p].parent;
        if g == Null then Null
        else
          UnderParent(n);
          UnderParent(p);
          SubNested(shape, g, p);
          g
    }

    /** `Node::setLeft`: `l` becomes the left child of `n` and `n` the parent
        of `l`; nothing else changes. The tree's own operations do not use it. */
    method SetLeft(n: int, l: int)
      requires 0 <= n < |nodes| && 0 <= l < |nodes|
      modifies this
      ensures |nodes| == old(|nodes|) && root == old(root) && shape == old(shape)
      ensures nodes[n].left == l && nodes[l].parent == n
      ensures l != n ==> nodes[l] == old(nodes[l]).(parent := n) && nodes[n] == old(nodes[n]).(left := l)
      ensures l == n ==> nodes[n] == old(nodes[n]).(left := n, parent := n)
      ensures forall i :: 0 <= i < |nodes| && i != n && i != l ==> nodes[i] == old(nodes[i])
    {
      nodes := nodes[l := nodes[l].(parent := n)];
      nodes := nodes[n := nodes[n].(left := l)];
    }

    /** `Node::setRight`, the mirror image of `SetLeft`. */
    method SetRight(n: int, r: int)
      requires 0 <= n < |nodes| && 0 <= r < |nodes|
      modifies this
      ensures |nodes| == old(|nodes|) && root == old(root) && shape == old(shape)
      ensures nodes[n].right == r && nodes[r].parent == n
      ensures r != n ==> nodes[r] == old(nodes[r]).(parent := n) && nodes[n] == old(nodes[n]).(right := r)
      ensures r == n ==> nodes[n] == old(nodes[n]).(right := n, parent := n)
      ensures forall i :: 0 <= i < |nodes| && i != n && i != r ==> nodes[i] == old(nodes[i])
    {
      nodes := nodes[r := nodes[r].(parent := n)];
      nodes := nodes[n := nodes[n].(right := r)];
    }

    /** `leftRotate`: the right child `y` of `x` takes `x`'s place, `x`
        becomes `y`'s left child. The tree stays valid with the same keys
        in the same in-order; only the subtree at `x` changes shape, and
        `y` becomes the root when `x` was. */
    method LeftRotate(x: int)
      requires Valid() && x in Ids(shape) && nodes[x].right != Null
      modifies this
      ensures Valid() && |nodes| == old(|nodes|) && old(Sub(shape, x)).right.Nd?
      ensures shape == Replace(old(shape), x, RotateLeft(Sub(old(shape), x)))
      ensures Ids(shape) == old(Ids(shape)) && Order(shape) == old(Order(shape))
      ensures Contents() == old(Contents())
      ensures SameKeysAndColours(old(nodes), nodes)
      ensures LeftRotated(old(nodes), nodes, x, old(nodes[x].right), old(nodes[nodes[x].right].left), old(nodes[x].parent))
      ensures var y := old(nodes[x].right);
        && y in Ids(shape) && Depth(shape, y) == old(Depth(shape, x))
        && root == (if old(nodes[x].parent) == Null then y else old(root))
    {
      ghost var t0, before, root0 := shape, nodes, root;
      Neighbours(x);
      Neighbours(nodes[x].right);
      LeftLinks(x);
      LeftRotateKeeps(t0, before, nodes, x, root0, root);
      shape := Replace(t0, x, RotateLeft(Sub(t0, x)));
    }

    /** The link writes of `leftRotate`, in the source's order. */
    method LeftLinks(x: int)
      requires Closed(nodes) && 0 <= x < |nodes| && nodes[x].right != Null
      requires var y, q := nodes[x].right, nodes[x].parent; var b := nodes[y].left;
        y != x && b != x && b != y && q != x && q != y && (b != Null ==> b != q)
      modifies this
      ensures |nodes| == old(|nodes|) && shape == old(shape)
      ensures LeftRotated(old(nodes), nodes, x, old(nodes[x].right), old(nodes[nodes[x].right].left), old(nodes[x].parent))
      ensures root == if old(nodes[x].parent) == Null then old(nodes[x].right) else old(root)
    {
      var y := nodes[x].right;
      var b := nodes[y].left;
      var q := nodes[x].parent;
      nodes := nodes[x := nodes[x].(right := b)];
      if b != Null {
        nodes := nodes[b := nodes[b].(parent := x)];
      }
      if q == Null {
        root := y;
        nodes := nodes[y := nodes[y].(parent := Null)];
      } else {
        nodes := nodes[y := nodes[y].(parent := q)];
        nodes := nodes[q := ReplaceChild(nodes[q], x, y)];
      }
      nodes := nodes[y := nodes[y].(left := x)];
      nodes := nodes[x := nodes[x].(parent := y)];
    }

    /** `rightRotate`, the mirror image of `LeftRotate`. */
    method RightRotate(x: int)
      requires Valid() && x in Ids(shape) && nodes[x].left != Null
      modifies this
      ensures Valid() && |nodes| == old(|nodes|) && old(Sub(shape, x)).left.Nd?
      ensures shape == Replace(old(shape), x, RotateRight(Sub(old(shape), x)))
      ensures Ids(shape) == old(Ids(shape)) && Order(shape) == old(Order(shape))
      ensures Contents() == old(Contents())
      ensures SameKeysAndColours(old(nodes), nodes)
      ensures RightRotated(old(nodes), nodes, x, old(nodes[x].left), old(nodes[nodes[x].left].right), old(nodes[x].parent))
      ensures var y := old(nodes[x].left);
        && y in Ids(shape) && Depth(shape, y) == old(Depth(shape, x))
        && root == (if old(nodes[x].parent) == Null then y else old(root))
    {
      ghost var t0, before, root0 := shape, nodes, root;
      Neighbours(x);
      Neighbours(nodes[x].left);
      RightLinks(x);
      RightRotateKeeps(t0, before, nodes, x, root0, root);
      shape := Replace(t0, x, RotateRight(Sub(t0, x)));
    }

    /** The link writes of `rightRotate`, in the source's order. */
    method RightLinks(x: int)
      requires Closed(nodes) && 0 <= x < |nodes| && nodes[x].left != Null
      requires var y, q := nodes[x].left, nodes[x].parent; var b := nodes[y].right;
        y != x && b != x && b != y && q != x && q != y && (b != Null ==> b != q)
      modifies this
      ensures |nodes| == old(|nodes|) && shape == old(shape)
      ensures RightRotated(old(nodes), nodes, x, old(nodes[x].left), old(nodes[nodes[x].left].right), old(nodes[x].parent))
      ensures root == if old(nodes[x].parent) == Null then old(nodes[x].left) else old(root)
    {
      var y := nodes[x].left;
      var b := nodes[y].right;
      var q := nodes[x].parent;
      nodes := nodes[x := nodes[x].(left := b)];
      if b != Null {
        nodes := nodes[b := nodes[b].(parent := x)];
      }
      if q == Null {
        root := y;
        nodes := nodes[y := nodes[y].(parent := Null)];
      } else {
        nodes := nodes[y := nodes[y].(parent := q)];
        nodes := nodes[q := ReplaceChild(nodes[q], x, y)];
      }
      nodes := nodes[y := nodes[y].(right := x)];
      nodes := nodes[x := nodes[x].(parent := y)];
    }
  
    /** `leftRightRotate`: a left rotation at the left child `p` of `g`
        lifts `p`'s right child `n`, then a right rotation at `g` lifts `n`
        into `g`'s place, with `p` and `g` as its children. */
    method LeftRightRotate(g: int)
      requires Valid() && g in Ids(shape) && nodes[g].left != Null && nodes[nodes[g].left].right != Null
      modifies this
      ensures Valid() && |nodes| == old(|nodes|)
      ensures Ids(shape) == old(Ids(shape)) && Order(shape) == old(Order(shape)) && Contents() == old(Contents())
      ensures SameKeysAndColours(old(nodes), nodes)
      ensures var p := old(nodes[g].left); var n := old(nodes[p].right);
        && n in Ids(shape) && Depth(shape, n) == old(Depth(shape, g))
        && nodes[n].left == p && nodes[n].right == g && nodes[n].parent == old(nodes[g].parent)
        && (old(nodes[g].parent) == Null ==> root == n)
    {
      Neighbours(g);
      var p := nodes[g].left;
      Neighbours(p);
      var n := nodes[p].right;
      ghost var before := nodes;
      LeftRotate(p);
      assert nodes[g].left == n && nodes[g].parent == before[g].parent;
      assert nodes[n].left == p && nodes[n].parent == g;
      Neighbours(n);
      ghost var middle := nodes;
      RightRotate(g);
      SameKeysAndColoursTrans(before, middle, nodes);
    }

    /** `rightLeftRotate`, the mirror image of `LeftRightRotate`. */
    method RightLeftRotate(g: int)
      requires Valid() && g in Ids(shape) && nodes[g].right != Null && nodes[nodes[g].right].left != Null
      modifies this
      ensures Valid() && |nodes| == old(|nodes|)
      ensures Ids(shape) == old(Ids(shape)) && Order(shape) == old(Order(shape)) && Contents() == old(Contents())
      ensures SameKeysAndColours(old(nodes), nodes)
      ensures var p := old(nodes[g].right); var n := old(nodes[p].left);
        && n in Ids(shape) && Depth(shape, n) == old(Depth(shape, g))
        && nodes[n].right == p && nodes[n].left == g && nodes[n].parent == old(nodes[g].parent)
        && (old(nodes[g].parent) == Null ==> root == n)
    {
      Neighbours(g);
      var p := nodes[g].right;
      Neighbours(p);
      var n := nodes[p].left;
      ghost var before := nodes;
      RightRotate(p);
      assert nodes[g].right == n && nodes[g].parent == before[g].parent;
      assert nodes[n].right == p && nodes[n].parent == g;
      Neighbours(n);
      ghost var middle := nodes;
      LeftRotate(g);
      SameKeysAndColoursTrans(before, middle, nodes);
    }
  
    /** `rotate`: the node `n`, its red parent and its grandparent are
        rearranged by a single rotation (when `n` and its parent lean the same
        way) or a double rotation (when they do not), and recoloured as the
        source does. The keys and their in-order stay; `n` either becomes the
        black root or ends up with a parent strictly higher than it was. */
    method Rotate(n: int)
      requires Valid() && n in Ids(shape) && Grandparent(n) != Null
      modifies this
      ensures Valid() && |nodes| == old(|nodes|) && Ids(shape) == old(Ids(shape))
      ensures Order(shape) == old(Order(shape)) && Contents() == old(Contents())
      ensures nodes[n].parent == Null ==> n == root && nodes[n].black
      ensures nodes[n].parent != Null ==>
        nodes[n].parent in Ids(shape) && Depth(shape, nodes[n].parent) < old(Depth(shape, n))
    {
      Up(n);
      var p := nodes[n].parent;
      Up(p);
      var g := nodes[p].parent;
      if nodes[g].parent != Null {
        Up(g);
      }
      var parentIsLeftChild := nodes[g].left == p;
      if nodes[p].left == n {
        if parentIsLeftChild {
          RightRotate(g);
          assert nodes[n].parent == p;
          RepaintSingle(n);
          return;
        }
        RightLeftRotate(g);
        RepaintDouble(n);
        if nodes[n].parent != Null {
          Up(n);
        }
        return;
      } else {
        if !parentIsLeftChild {
          LeftRotate(g);
          assert nodes[n].parent == p;
          RepaintSingle(n);
          return;
        }
        LeftRightRotate(g);
        RepaintDouble(n);
        if nodes[n].parent != Null {
          Up(n);
        }
        return;
      }
    }

    /** The colours `rotate` writes after a single rotation: `n` red, its
        parent (now at the top of the rotated subtree) black, and that
        parent's right child, if any, red. Only colours change. */
    method RepaintSingle(n: int)
      requires Valid() && n in Ids(shape) && nodes[n].parent != Null
      modifies this
      ensures Valid() && shape == old(shape) && root == old(root) && Contents() == old(Contents())
      ensures |nodes| == old(|nodes|)
      ensures forall i :: 0 <= i < |nodes| ==> SameLinks(nodes[i], old(nodes[i])) && nodes[i].data == old(nodes[i].data)
      ensures forall i :: 0 <= i < |nodes| ==>
        nodes[i].black == (if i == n then false
                           else if i == old(nodes[n].parent) then true
                           else if i == old(nodes[nodes[n].parent].right) then false
                           else old(nodes[i].black))
      ensures nodes[n].parent == old(nodes[n].parent) && nodes[nodes[n].parent].black
    {
      Up(n);
      var p := nodes[n].parent;
      Slot(p);
      Paint(n, false);
      Paint(p, true);
      if nodes[p].right != Null {
        Paint(nodes[p].right, false);
      }
    }

    /** The colours `rotate` writes after a double rotation: `n` black and
        its two children red. Only colours change. */
    method RepaintDouble(n: int)
      requires Valid() && n in Ids(shape) && nodes[n].left != Null && nodes[n].right != Null
      modifies this
      ensures Valid() && shape == old(shape) && root == old(root) && Contents() == old(Contents())
      ensures |nodes| == old(|nodes|)
      ensures forall i :: 0 <= i < |nodes| ==> SameLinks(nodes[i], old(nodes[i])) && nodes[i].data == old(nodes[i].data)
      ensures forall i :: 0 <= i < |nodes| ==>
        nodes[i].black == (if i == n then true
                           else if i == old(nodes[n].left) || i == old(nodes[n].right) then false
                           else old(nodes[i].black))
      ensures nodes[n].parent == old(nodes[n].parent) && nodes[n].black
    {
      Slot(n);
      Paint(n, true);
      Paint(nodes[n].right, false);
      Paint(nodes[n].left, false);
    }

    /** `correctTree`: a red `n` under a red parent. A black (or missing)
        uncle calls for a rotation, a red uncle is painted black; then the
        grandparent is painted red and `n`'s parent black. When a double
        rotation has lifted `n` to the root, `n` has no parent and that last
        write is skipped. */
    method CorrectTree(n: int)
      requires Valid() && n in Ids(shape) && Grandparent(n) != Null
      modifies this
      ensures Valid() && |nodes| == old(|nodes|) && Ids(shape) == old(Ids(shape))
      ensures Order(shape) == old(Order(shape)) && Contents() == old(Contents())
      ensures nodes[n].parent == Null ==> n == root && nodes[n].black
      ensures nodes[n].parent != Null ==>
        nodes[n].parent in Ids(shape) && Depth(shape, nodes[n].parent) < old(Depth(shape, n))
    {
      var g := Grandparent(n);
      Neighbours(n);
      Neighbours(nodes[n].parent);
      var uncle: int;
      if nodes[n].parent == nodes[g].left {
        uncle := nodes[g].right;
      } else {
        uncle := nodes[g].left;
      }
      if IsBlack(uncle) {
        Rotate(n);
      } else if uncle != Null {
        Paint(uncle, true);
      }
      Paint(g, false);
      if nodes[n].parent != Null {
        Paint(nodes[n].parent, true);
      }
    }

    /** `checkColor`: walks from `n` up to the root, correcting every red
        node that has a red parent and a grandparent, and paints the root
        black. The keys and their in-order stay. */
    method CheckColor(n: int)
      requires Valid() && n in Ids(shape)
      modifies this
      ensures Valid() && |nodes| == old(|nodes|) && Ids(shape) == old(Ids(shape))
      ensures Order(shape) == old(Order(shape)) && Contents() == old(Contents())
      ensures root in Ids(shape) && nodes[root].black
      decreases Depth(shape, n)
    {
      Neighbours(n);
      if n == root {
        Paint(root, true);
        return;
      }
      if Grandparent(n) != Null && !nodes[n].black && !nodes[nodes[n].parent].black {
        CorrectTree(n);
      }
      if nodes[n].parent != Null {
        CheckColor(nodes[n].parent);
      }
    }
  
    /** The recursive `insert(root, newNode)`: from `cur`, a key smaller
        than the node's goes right and a greater or equal one left, until an
        empty slot takes the new node `nn`; on the way back, every level
        calls `checkColor` on `nn`. The tree gains `nn` and exactly its key,
        and its root is black. */
    method InsertBelow(cur: int, nn: int)
      requires Valid() && cur in Ids(shape) && 0 <= nn < |nodes| && nn !in Ids(shape)
      requires nodes[nn].left == Null && nodes[nn].right == Null
      requires OnPath(shape, cur, nodes[nn].data, nodes)
      modifies this
      ensures Valid() && |nodes| == old(|nodes|) && Ids(shape) == old(Ids(shape)) + {nn}
      ensures multiset(Contents()) == multiset(old(Contents())) + multiset{old(nodes[nn].data)}
      ensures root in Ids(shape) && nodes[root].black
      decreases Sub(shape, cur)
    {
      Neighbours(cur);
      ghost var t0, before := shape, nodes;
      ghost var v := nodes[nn].data;
      OnPathStep(shape, cur, v, nodes);
      if nodes[nn].data < nodes[cur].data {
        if nodes[cur].right == Null {
          nodes := nodes[cur := nodes[cur].(right := nn)];
          nodes := nodes[nn := nodes[nn].(parent := cur)];
          AttachKeeps(t0, before, nodes, cur, nn);
          shape := Attach(t0, v, nn, before);
        } else {
          InsertBelow(nodes[cur].right, nn);
        }
      } else {
        if nodes[cur].left == Null {
          nodes := nodes[cur := nodes[cur].(left := nn)];
          nodes := nodes[nn := nodes[nn].(parent := cur)];
          AttachKeeps(t0, before, nodes, cur, nn);
          shape := Attach(t0, v, nn, before);
        } else {
          InsertBelow(nodes[cur].left, nn);
        }
      }
      CheckColor(nn);
    }

    /** `insert(data)`: a new red node holding `v`; into an empty tree it
        goes as the black root, otherwise it is placed by `InsertBelow`. The
        tree gains exactly the key `v` and one node, and its root is black. */
    method Insert(v: int)
      requires Valid()
      modifies this
      ensures Valid() && |nodes| == old(|nodes|) + 1
      ensures Ids(shape) == old(Ids(shape)) + {old(|nodes|)}
      ensures multiset(Contents()) == multiset(old(Contents())) + multiset{v}
      ensures root in Ids(shape) && nodes[root].black
      ensures old(root) == Null ==> root == old(|nodes|) && Contents() == [v]
    {
      var nn := Allocate(v);
      if root == Null {
        root := nn;
        nodes := nodes[root := nodes[root].(black := true)];
        shape := Nd(Nil, nn, Nil);
        assert Order(shape) == [nn];
        ghost var ks := Keys(shape, nodes);
        assert |ks| == 1 && ks[0] == DataAt(nodes, nn) == v;
        assert ks == [v];
        assert Closed(nodes) && Linked(shape, nodes, Null);
        assert Distinct(shape) && Within(shape, |nodes|) && Descending([v]);
        return;
      }
      Neighbours(root);
      assert OnPath(shape, root, nodes[nn].data, nodes);
      InsertBelow(root, nn);
    }
  
    /** `search`: the descent from the root, right for a smaller key, left
        for a greater one, stopping at an equal key. It finds a node exactly
        when the key is in the tree, and the node it finds holds the key and
        lies on the key's descent path. It changes nothing. */
    method Search(v: int) returns (r: int)
      requires Valid()
      ensures r == Null <==> v !in Contents()
      ensures r != Null ==> r in Ids(shape) && nodes[r].data == v && OnPath(shape, r, v, nodes)
    {
      r := root;
      ghost var sub := shape;
      while r != Null
        invariant r == RootOf(sub)
        invariant sub.Nd? ==> r in Ids(shape) && Sub(shape, r) == sub && OnPath(shape, r, v, nodes)
        invariant Descending(Keys(sub, nodes))
        invariant v in Contents() ==> v in Keys(sub, nodes)
        decreases sub
      {
        Neighbours(r);
        SubChildren(shape, r);
        DescendingNd(sub.left, r, sub.right, nodes);
        KeysNd(sub.left, r, sub.right, nodes);
        OnPathStep(shape, r, v, nodes);
        if v < nodes[r].data {
          r := nodes[r].right;
          sub := sub.right;
        } else if v > nodes[r].data {
          r := nodes[r].left;
          sub := sub.left;
        } else {
          KeyOfSlot(shape, r, nodes);
          return;
        }
      }
    }

    /** `successor`: the leftmost node of the right subtree of `x`, else the
        rightmost node of its left subtree, else null; that is, the node
        right after `x` in in-order, else the one right before it. */
    method Successor(x: int) returns (s: int)
      requires Valid() && x in Ids(shape)
      ensures var sx := Sub(shape, x);
        && (sx.right.Nd? ==> s == Order(sx.right)[0])
        && (sx.right.Nil? && sx.left.Nd? ==> s == Order(sx.left)[|Order(sx.left)| - 1])
        && (sx.right.Nil? && sx.left.Nil? ==> s == Null)
    {
      Neighbours(x);
      SubChildren(shape, x);
      if nodes[x].right != Null {
        s := nodes[x].right;
        ghost var sub := Sub(shape, x).right;
        while nodes[s].left != Null
          invariant s in Ids(shape) && 0 <= s < |nodes| && Sub(shape, s) == sub
          invariant Order(sub)[0] == Order(Sub(shape, x).right)[0]
          decreases sub
        {
          Neighbours(s);
          s := nodes[s].left;
          sub := sub.left;
        }
        Neighbours(s);
        return;
      } else if nodes[x].left != Null {
        s := nodes[x].left;
        ghost var sub := Sub(shape, x).left;
        while nodes[s].right != Null
          invariant s in Ids(shape) && 0 <= s < |nodes| && Sub(shape, s) == sub
          invariant Order(sub)[|Order(sub)| - 1] == Order(Sub(shape, x).left)[|Order(Sub(shape, x).left)| - 1]
          decreases sub
        {
          Neighbours(s);
          s := nodes[s].right;
          sub := sub.right;
        }
        Neighbours(s);
        return;
      }
      s := Null;
    }

    /** The structural part of `remove`: the node `z` holding `v` is found;
        an absent key changes nothing, a present key loses exactly one
        occurrence, at its place in the in-order (see `Unlink`).
        Recolouring afterwards is not modelled. */
    method Remove(v: int)
      requires Valid()
      modifies this
      ensures Valid() && |nodes| == old(|nodes|)
      ensures v !in old(Contents()) ==> nodes == old(nodes) && root == old(root) && shape == old(shape)
      ensures v in old(Contents()) ==> exists k ::
        && 0 <= k < |old(Contents())| && old(Contents())[k] == v
        && Contents() == Without(old(Contents()), k)
      ensures v in old(Contents()) ==> multiset(Contents()) == multiset(old(Contents())) - multiset{v}
      ensures v in old(Contents()) ==> Ids(shape) <= old(Ids(shape)) && |Ids(shape)| == |old(Ids(shape))| - 1
    {
      var z := Search(v);
      if z == Null {
        return;
      }
      ghost var k := Unlink(z);
      DropAt(old(Contents()), Contents(), k, v);
    }

    /** The body of `remove` once the node `z` is found: if `z` has at
        most one child it is unlinked itself, otherwise its successor `s`
        (which has no left child) is; the unlinked node's parent takes over
        its one child, and its key is copied into `z`. The in-order keys
        lose exactly the entry `z` held, and one node leaves the tree. */
    method Unlink(z: int) returns (ghost k: nat)
      requires Valid() && z in Ids(shape)
      modifies this
      ensures Valid() && |nodes| == old(|nodes|)
      ensures k < |old(Contents())| && old(Contents())[k] == old(nodes[z].data)
      ensures Contents() == Without(old(Contents()), k)
      ensures Ids(shape) <= old(Ids(shape)) && |Ids(shape)| == |old(Ids(shape))| - 1
    {
      Slot(z);
      var s: int;
      if nodes[z].right == Null || nodes[z].left == Null {
        s := z;
      } else {
        s := Successor(z);
        SuccessorSplit(shape, z);
      }
      k := Splice(z, s);
    }

    /** The links of a node of the tree, read off the shape. */
    lemma {:induction false} Slot(x: int)
      requires Valid() && x in Ids(shape)
      ensures 0 <= x < |nodes|
      ensures nodes[x].left == RootOf(Sub(shape, x).left) && nodes[x].right == RootOf(Sub(shape, x).right)
      ensures Ref(nodes[x].left, |nodes|) && Ref(nodes[x].right, |nodes|) && Ref(nodes[x].parent, |nodes|)
      ensures nodes[x].left != x && nodes[x].right != x
    {
      LinkedSub(shape, nodes, Null, x);
      SubDistinct(shape, x);
    }

    /** The splice of `remove`: `s`, which has at most one child and is
        `z` or the first node of `z`'s right subtree in in-order, is
        unlinked, its parent takes over its child, and its key goes into
        `z`. */
    method Splice(z: int, s: int) returns (ghost k: nat)
      requires Valid() && z in Ids(shape) && s in Ids(shape)
      requires Sub(shape, s).left.Nil? || Sub(shape, s).right.Nil?
      requires s == z || (Sub(shape, z).right.Nd? && s == Order(Sub(shape, z).right)[0])
      modifies this
      ensures Valid() && |nodes| == old(|nodes|)
      ensures k < |old(Contents())| && old(Contents())[k] == old(nodes[z].data)
      ensures Contents() == Without(old(Contents()), k)
      ensures Ids(shape) <= old(Ids(shape)) && |Ids(shape)| == |old(Ids(shape))| - 1
    {
      ghost var t0 := shape;
      Slot(z);
      Slot(s);
      var c := if nodes[s].left != Null then nodes[s].left else nodes[s].right;
      var q := nodes[s].parent;
      var ns, r := nodes, root;
      if q == Null {
        r := c;
      } else {
        ns := ns[q := ReplaceChild(ns[q], s, c)];
      }
      ghost var n1 := ns;
      if c != Null {
        ns := ns[c := ns[c].(parent := q)];
      }
      ghost var n2 := ns;
      ns := ns[z := ns[z].(data := ns[s].data)];
      ghost var u := if Sub(t0, s).left.Nd? then Sub(t0, s).left else Sub(t0, s).right;
      SpliceKeeps(t0, nodes, n1, n2, ns, z, s, u, r);
      k := |Pre(t0, z) + Order(Sub(t0, z).left)|;
      nodes, root, shape := ns, r, Replace(t0, s, u);
    }

    /** `height(node)`: 0 below a leaf, otherwise one more than the taller
        of the two subtrees, so the number of nodes on a longest downward
        path from `n`. */
    method HeightAt(n: int, ghost t: Tree, ghost p: int) returns (h: nat)
      requires Linked(t, nodes, p) && n == RootOf(t)
      ensures t.Nil? ==> h == 0
      ensures t.Nd? ==> h == |Deepest(t)| + 1
      decreases t
    {
      if n == Null {
        return 0;
      }
      var a := HeightAt(nodes[n].left, t.left, n);
      var b := HeightAt(nodes[n].right, t.right, n);
      h := if a + 1 >= b + 1 then a + 1 else b + 1;
    }

    /** `height()`: 0 for the empty tree, otherwise the number of edges on
        a longest path from the root down, so also 0 for a single node. */
    method Height() returns (h: nat)
      requires Valid()
      ensures root == Null ==> h == 0
      ensures root != Null ==> exists path :: Follow(shape, path).Nd? && |path| == h
      ensures forall path :: Follow(shape, path).Nd? ==> |path| <= h
    {
      DeepestIsLongest(shape);
      if root == Null {
        return 0;
      }
      var k := HeightAt(root, shape, Null);
      h := k - 1;
    }
  }
}
