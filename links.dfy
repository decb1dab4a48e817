/** The node arena of the red-black tree and how it is tied to a `Shape.Tree`.

    A node of the source (`Node<T>` in RBTree/tree.hpp) is a record here,
    with integer keys; the nodes live in a sequence and refer to each other
    by position, with `Null` (-1) for the null pointer. `Linked` says that
    the left/right/parent fields of the arena spell out exactly a given
    shape, and the lemmas below say which field changes keep it so. */
module Links {
  import opened Shape

  const Null: int := -1

  datatype Node = Node(data: int, left: int, right: int, parent: int, black: bool)

  /** The node the source's constructor builds: no children, coloured
      red. Its parent is taken as null: in the source the constructor's
      `parent` parameter shadows the field, so `parent = nullptr` clears the
      parameter and leaves the field unset, while every caller then treats
      a new node's parent as null. */
  function Fresh(v: int): Node
  {
    Node(v, Null, Null, Null, false)
  }

  /** The child slot of `n` that holds `x` now holds `y` (the left slot is
      tested first). */
  function ReplaceChild(n: Node, x: int, y: int): (m: Node)
    ensures m.data == n.data && m.parent == n.parent && m.black == n.black
    ensures n.left == x ==> m.left == y && m.right == n.right
    ensures n.left != x && n.right == x ==> m.left == n.left && m.right == y
  {
    if n.left == x then n.(left := y) else n.(right := y)
  }

  ghost predicate SameLinks(a: Node, b: Node)
  {
    a.left == b.left && a.right == b.right && a.parent == b.parent
  }

  /** Every slot of `t` is a position of an arena of length `n`. */
  ghost predicate Within(t: Tree, n: nat)
  {
    forall i :: i in Ids(t) ==> i < n
  }

  /** The fields of `nodes` spell out `t`: each node's children are the tops
      of its subtrees and its parent is the node above it (`p` for the top). */
  ghost predicate Linked(t: Tree, nodes: seq<Node>, p: int)
  {
    match t
    case Nil => true
    case Nd(l, i, r) =>
      && i < |nodes|
      && nodes[i].parent == p
      && nodes[i].left == RootOf(l)
      && nodes[i].right == RootOf(r)
      && Linked(l, nodes, i)
      && Linked(r, nodes, i)
  }

  /** A link field is null or names a position of an arena of length `n`. */
  predicate Ref(j: int, n: int)
  {
    j == Null || 0 <= j < n
  }

  /** No link field of any node of the arena points outside it. */
  ghost predicate Closed(nodes: seq<Node>)
  {
    forall i :: 0 <= i < |nodes| ==>
      Ref(nodes[i].left, |nodes|) && Ref(nodes[i].right, |nodes|) && Ref(nodes[i].parent, |nodes|)
  }

  function DataAt(nodes: seq<Node>, i: int): int
  {
    if 0 <= i < |nodes| then nodes[i].data else 0
  }

  ghost function KeysAt(ids: seq<nat>, nodes: seq<Node>): (ks: seq<int>)
    ensures |ks| == |ids|
    ensures forall k :: 0 <= k < |ids| ==> ks[k] == DataAt(nodes, ids[k])
  {
    seq(|ids|, k requires 0 <= k < |ids| => DataAt(nodes, ids[k]))
  }

  /** The keys of `t` in in-order. */
  ghost function Keys(t: Tree, nodes: seq<Node>): seq<int>
  {
    KeysAt(Order(t), nodes)
  }

  /** Non-increasing: the order the source's insert builds, where a smaller
      key goes to the right and a greater or equal key to the left. */
  ghost predicate Descending(s: seq<int>)
  {
    forall j, k :: 0 <= j < k < |s| ==> s[j] >= s[k]
  }

  /** Two arenas of one length with the same key and colour at every
      position; only links may differ. */
  ghost predicate SameKeysAndColours(a: seq<Node>, b: seq<Node>)
  {
    |a| == |b| && forall i :: 0 <= i < |a| ==> a[i].data == b[i].data && a[i].black == b[i].black
  }

  lemma {:induction false} SameKeysAndColoursTrans(a: seq<Node>, b: seq<Node>, c: seq<Node>)
    requires SameKeysAndColours(a, b) && SameKeysAndColours(b, c)
    ensures SameKeysAndColours(a, c)
  {
    forall i | 0 <= i < |a| ensures a[i].data == c[i].data && a[i].black == c[i].black {
      assert a[i].data == b[i].data && b[i].data == c[i].data;
    }
  }

  /** `s` with its entry at position `k` taken out. */
  function Without(s: seq<int>, k: nat): seq<int>
    requires k < |s|
  {
    s[..k] + s[k + 1..]
  }

  /** An arena holding the tree `t` with root `root`: every link in range,
      the links agreeing with `t`, each node once, and the keys in order. */
  ghost predicate WellFormed(t: Tree, nodes: seq<Node>, root: int)
  {
    && Closed(nodes)
    && Linked(t, nodes, Null)
    && Distinct(t)
    && Within(t, |nodes|)
    && root == RootOf(t)
    && Descending(Keys(t, nodes))
  }

  // ---------------------------------------------------------------------
  // Keys

  lemma {:induction false} KeysAtConcat(a: seq<nat>, b: seq<nat>, nodes: seq<Node>)
    ensures KeysAt(a + b, nodes) == KeysAt(a, nodes) + KeysAt(b, nodes)
  {
    assert KeysAt(a + b, nodes) == KeysAt(a, nodes) + KeysAt(b, nodes) by {
      var ab := a + b;
      forall k | 0 <= k < |ab| ensures KeysAt(ab, nodes)[k] == (KeysAt(a, nodes) + KeysAt(b, nodes))[k] {
        if k >= |a| { assert ab[k] == b[k - |a|]; }
      }
    }
  }

  lemma {:induction false} KeysNd(l: Tree, i: nat, r: Tree, nodes: seq<Node>)
    ensures Keys(Nd(l, i, r), nodes) == Keys(l, nodes) + [DataAt(nodes, i)] + Keys(r, nodes)
  {
    KeysAtConcat(Order(l) + [i], Order(r), nodes);
    KeysAtConcat(Order(l), [i], nodes);
  }

  /** Keys only depend on the data fields of the slots in the shape. */
  lemma {:induction false} KeysFrame(t: Tree, nodes: seq<Node>, nodes': seq<Node>)
    requires Within(t, |nodes|) && |nodes| <= |nodes'|
    requires forall i :: i in Ids(t) ==> nodes'[i].data == nodes[i].data
    ensures Keys(t, nodes') == Keys(t, nodes)
  {
    OrderIds(t);
    var o := Order(t);
    forall k | 0 <= k < |o| ensures Keys(t, nodes')[k] == Keys(t, nodes)[k] {
      assert o[k] in Ids(t);
    }
  }

  lemma {:induction false} DescendingConcat(a: seq<int>, b: seq<int>)
    ensures Descending(a + b) <==>
      Descending(a) && Descending(b) && forall x, y :: x in a && y in b ==> x >= y
  {
    if Descending(a + b) {
      assert forall k :: 0 <= k < |a| ==> a[k] == (a + b)[k];
      assert forall k :: 0 <= k < |b| ==> b[k] == (a + b)[|a| + k];
      forall x, y | x in a && y in b ensures x >= y {
        var j :| 0 <= j < |a| && a[j] == x;
        var k :| 0 <= k < |b| && b[k] == y;
        assert (a + b)[j] == x && (a + b)[|a| + k] == y;
      }
    }
    if Descending(a) && Descending(b) && forall x, y :: x in a && y in b ==> x >= y {
      forall j, k | 0 <= j < k < |a + b| ensures (a + b)[j] >= (a + b)[k] {
        if j >= |a| {
          assert (a + b)[j] == b[j - |a|] && (a + b)[k] == b[k - |a|];
        } else if k >= |a| {
          assert (a + b)[j] in a && (a + b)[k] in b;
        }
      }
    }
  }

  lemma {:induction false} DescendingDrop(s: seq<int>, k: nat)
    requires Descending(s) && k < |s|
    ensures Descending(s[..k] + s[k + 1..])
  {
    var d := s[..k] + s[k + 1..];
    forall a, b | 0 <= a < b < |d| ensures d[a] >= d[b] {
      var a' := if a < k then a else a + 1;
      var b' := if b < k then b else b + 1;
      assert d[a] == s[a'] && d[b] == s[b'];
    }
  }

  // ---------------------------------------------------------------------
  // Links

  lemma {:induction false} LinkedWithin(t: Tree, nodes: seq<Node>, p: int)
    requires Linked(t, nodes, p)
    ensures Within(t, |nodes|)
  {
    match t
    case Nil =>
    case Nd(l, i, r) =>
      LinkedWithin(l, nodes, i);
      LinkedWithin(r, nodes, i);
  }

  /** The subtree at `x` is itself linked, hanging from `x`'s parent field;
      that field is `p` at the top and a slot of `t` below it. */
  lemma {:induction false} LinkedSub(t: Tree, nodes: seq<Node>, p: int, x: nat)
    requires Linked(t, nodes, p) && x in Ids(t)
    ensures x < |nodes| && Linked(Sub(t, x), nodes, nodes[x].parent)
    ensures x == RootOf(t) ==> nodes[x].parent == p
    ensures x != RootOf(t) ==> nodes[x].parent in Ids(t)
  {
    match t
    case Nd(l, i, r) =>
      if i == x {
      } else if x in Ids(l) {
        LinkedSub(l, nodes, i, x);
      } else {
        LinkedSub(r, nodes, i, x);
      }
  }

  /** Below the top, a node's parent field names the node one level up,
      outside the node's own subtree. */
  lemma {:induction false} ParentAbove(t: Tree, nodes: seq<Node>, p: int, x: nat)
    requires Linked(t, nodes, p) && Distinct(t) && x in Ids(t) && x != RootOf(t)
    ensures x < |nodes| && nodes[x].parent in Ids(t) && nodes[x].parent < |nodes|
    ensures nodes[x].parent !in Ids(Sub(t, x))
    ensures Depth(t, nodes[x].parent) + 1 == Depth(t, x)
    ensures nodes[nodes[x].parent].left == x || nodes[nodes[x].parent].right == x
  {
    LinkedWithin(t, nodes, p);
    match t
    case Nd(l, i, r) =>
      if x in Ids(l) {
        if x == RootOf(l) {
          LinkedSub(l, nodes, i, x);
        } else {
          ParentAbove(l, nodes, i, x);
        }
      } else {
        if x == RootOf(r) {
          LinkedSub(r, nodes, i, x);
        } else {
          ParentAbove(r, nodes, i, x);
        }
      }
  }

  /** Changing only the parent field of the top keeps a linked subtree
      linked, hanging from the new parent. */
  lemma {:induction false} Relinked(t: Tree, nodes: seq<Node>, nodes': seq<Node>, p: int, p': int)
    requires Linked(t, nodes, p) && Distinct(t)
    requires forall i :: i in Ids(t) ==>
      && i < |nodes| && i < |nodes'|
      && nodes'[i].left == nodes[i].left
      && nodes'[i].right == nodes[i].right
      && (nodes'[i].parent == if i == RootOf(t) then p' else nodes[i].parent)
    ensures Linked(t, nodes', p')
  {
    match t
    case Nil =>
    case Nd(l, i, r) =>
      Relinked(l, nodes, nodes', i, i);
      Relinked(r, nodes, nodes', i, i);
  }

  /** The general step behind rotations, attaching a leaf and unlinking a
      node: if the arena is left unchanged outside the subtree at `x`, except
      that `x`'s parent now points to the top of `u` instead of `x`, and `u`
      is linked below that parent, then the arena spells out `Replace(t, x, u)`. */
  lemma {:induction false} ReplaceLinked(t: Tree, nodes: seq<Node>, nodes': seq<Node>, p: int, x: nat, u: Tree)
    requires Linked(t, nodes, p) && Distinct(t) && x in Ids(t) && x < |nodes|
    requires Linked(u, nodes', nodes[x].parent)
    requires forall i :: i in Ids(t) && i !in Ids(Sub(t, x)) && i != nodes[x].parent ==>
      i < |nodes| && i < |nodes'| && SameLinks(nodes'[i], nodes[i])
    requires nodes[x].parent != Null ==>
      0 <= nodes[x].parent < |nodes| && nodes[x].parent < |nodes'| &&
      SameLinks(nodes'[nodes[x].parent], ReplaceChild(nodes[nodes[x].parent], x, RootOf(u)))
    ensures Linked(Replace(t, x, u), nodes', p)
  {
    var q := nodes[x].parent;
    match t
    case Nd(l, i, r) =>
      if i == x {
      } else if x in Ids(l) {
        LinkedSub(l, nodes, i, x);
        assert i !in Ids(Sub(t, x));
        ReplaceIds(l, x, u);
        ReplaceLinked(l, nodes, nodes', i, x, u);
        Relinked(r, nodes, nodes', i, i);
      } else {
        LinkedSub(r, nodes, i, x);
        assert i !in Ids(Sub(t, x));
        if l.Nd? { assert l.id != x; }
        ReplaceIds(r, x, u);
        ReplaceLinked(r, nodes, nodes', i, x, u);
        Relinked(l, nodes, nodes', i, i);
      }
  }
}
