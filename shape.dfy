/** The shape of a linked binary tree whose nodes live in an arena.

    A `Tree` names, for every node, the arena slot that holds it; keys,
    colours and links stay in the arena. Every structural change the
    red-black tree makes (a rotation, attaching a leaf, unlinking a node)
    replaces one subtree by another, so this module describes those changes
    once, with `Sub` and `Replace`, and proves what they do to the in-order
    sequence, the set of slots and the depth of a node. */
module Shape {

  datatype Tree = Nil | Nd(left: Tree, id: nat, right: Tree)

  /** The slot at the top of `t`, or -1 for the empty tree. */
  function RootOf(t: Tree): int
  {
    match t
    case Nil => -1
    case Nd(_, i, _) => i
  }

  ghost function Ids(t: Tree): set<nat>
  {
    match t
    case Nil => {}
    case Nd(l, i, r) => Ids(l) + {i} + Ids(r)
  }

  /** The slots in in-order: left subtree, node, right subtree. */
  ghost function Order(t: Tree): seq<nat>
  {
    match t
    case Nil => []
    case Nd(l, i, r) => Order(l) + [i] + Order(r)
  }

  /** No slot occurs twice: the shape is a tree, not a graph with sharing. */
  ghost predicate Distinct(t: Tree)
  {
    match t
    case Nil => true
    case Nd(l, i, r) =>
      i !in Ids(l) && i !in Ids(r) && Ids(l) !! Ids(r) && Distinct(l) && Distinct(r)
  }

  /** The subtree whose top is slot `x`. */
  ghost function Sub(t: Tree, x: nat): (s: Tree)
    requires x in Ids(t)
    ensures s.Nd? && s.id == x && Ids(s) <= Ids(t)
  {
    match t
    case Nd(l, i, r) =>
      if i == x then t
      else if x in Ids(l) then Sub(l, x)
      else Sub(r, x)
  }

  /** `t` with the subtree at slot `x` replaced by `u`. */
  ghost function Replace(t: Tree, x: nat, u: Tree): Tree
    requires x in Ids(t)
  {
    match t
    case Nd(l, i, r) =>
      if i == x then u
      else if x in Ids(l) then Nd(Replace(l, x, u), i, r)
      else Nd(l, i, Replace(r, x, u))
  }

  /** The slots that come before the subtree at `x` in in-order. */
  ghost function Pre(t: Tree, x: nat): seq<nat>
    requires x in Ids(t)
  {
    match t
    case Nd(l, i, r) =>
      if i == x then []
      else if x in Ids(l) then Pre(l, x)
      else Order(l) + [i] + Pre(r, x)
  }

  /** The slots that come after the subtree at `x` in in-order. */
  ghost function Post(t: Tree, x: nat): seq<nat>
    requires x in Ids(t)
  {
    match t
    case Nd(l, i, r) =>
      if i == x then []
      else if x in Ids(l) then Post(l, x) + [i] + Order(r)
      else Post(r, x)
  }

  /** Number of edges from the top of `t` down to slot `x`. */
  ghost function Depth(t: Tree, x: nat): nat
    requires x in Ids(t)
  {
    match t
    case Nd(l, i, r) =>
      if i == x then 0
      else if x in Ids(l) then 1 + Depth(l, x)
      else 1 + Depth(r, x)
  }

  /** The node reached from the top of `t` by following `path`
      (`true` = left child, `false` = right child); Nil once it falls off. */
  ghost function Follow(t: Tree, path: seq<bool>): Tree
    decreases |path|
  {
    if path == [] then t
    else match t
      case Nil => Nil
      case Nd(l, _, r) => Follow(if path[0] then l else r, path[1..])
  }

  /** A downward path to a node of greatest depth. */
  ghost function Deepest(t: Tree): seq<bool>
  {
    match t
    case Nil => []
    case Nd(l, _, r) =>
      if r.Nil? && l.Nil? then []
      else if |Deepest(l)| + (if l.Nil? then 0 else 1) >= |Deepest(r)| + (if r.Nil? then 0 else 1)
      then [true] + Deepest(l)
      else [false] + Deepest(r)
  }

  /** Single left rotation at the top of `t`: the right child moves up. */
  function RotateLeft(t: Tree): (s: Tree)
    requires t.Nd? && t.right.Nd?
    ensures s.Nd? && s.id == t.right.id && s.left.Nd? && s.left.id == t.id
  {
    Nd(Nd(t.left, t.id, t.right.left), t.right.id, t.right.right)
  }

  /** Single right rotation at the top of `t`: the left child moves up. */
  function RotateRight(t: Tree): (s: Tree)
    requires t.Nd? && t.left.Nd?
    ensures s.Nd? && s.id == t.left.id && s.right.Nd? && s.right.id == t.id
  {
    Nd(t.left.left, t.left.id, Nd(t.left.right, t.id, t.right))
  }

  ghost predicate Unique(s: seq<nat>)
  {
    forall j, k :: 0 <= j < k < |s| ==> s[j] != s[k]
  }

  // ---------------------------------------------------------------------
  // Lemmas

  lemma {:induction false} OrderIds(t: Tree)
    ensures forall x :: x in Order(t) <==> x in Ids(t)
    ensures |Order(t)| == |Ids(t)| || !Distinct(t)
  {
    match t
    case Nil =>
    case Nd(l, i, r) =>
      OrderIds(l);
      OrderIds(r);
      if Distinct(t) {
        assert Ids(t) == Ids(l) + Ids(r) + {i};
        assert |Ids(l) + Ids(r)| == |Ids(l)| + |Ids(r)|;
      }
  }

  /** A left rotation keeps the in-order sequence and the slots, and keeps a
      distinct shape distinct. */
  lemma {:induction false} RotateLeftKeeps(t: Tree)
    requires t.Nd? && t.right.Nd?
    ensures Order(RotateLeft(t)) == Order(t) && Ids(RotateLeft(t)) == Ids(t)
    ensures Distinct(t) ==> Distinct(RotateLeft(t))
  {
    var a, x, b, y, c := t.left, t.id, t.right.left, t.right.id, t.right.right;
    assert Order(RotateLeft(t)) == Order(a) + [x] + Order(b) + [y] + Order(c);
    if Distinct(t) {
      var bc := Nd(b, y, c);
      assert x !in Ids(a) && x !in Ids(bc) && Ids(a) !! Ids(bc) && Distinct(bc);
      assert y !in Ids(b) && y !in Ids(c) && Ids(b) !! Ids(c);
      assert y in Ids(bc);
      assert Distinct(Nd(a, x, b));
      assert Ids(Nd(a, x, b)) !! Ids(c);
    }
  }

  /** A right rotation keeps the in-order sequence and the slots, and keeps a
      distinct shape distinct. */
  lemma {:induction false} RotateRightKeeps(t: Tree)
    requires t.Nd? && t.left.Nd?
    ensures Order(RotateRight(t)) == Order(t) && Ids(RotateRight(t)) == Ids(t)
    ensures Distinct(t) ==> Distinct(RotateRight(t))
  {
    var a, y, b, x, c := t.left.left, t.left.id, t.left.right, t.id, t.right;
    assert Order(RotateRight(t)) == Order(a) + [y] + Order(b) + [x] + Order(c);
    if Distinct(t) {
      var ab := Nd(a, y, b);
      assert x !in Ids(ab) && x !in Ids(c) && Ids(ab) !! Ids(c) && Distinct(ab);
      assert y !in Ids(a) && y !in Ids(b) && Ids(a) !! Ids(b);
      assert y in Ids(ab);
      assert Distinct(Nd(b, x, c));
      assert Ids(a) !! Ids(Nd(b, x, c));
    }
  }

  lemma {:induction false} UniqueConcat(a: seq<nat>, b: seq<nat>)
    requires Unique(a) && Unique(b)
    requires forall x :: x in a ==> x !in b
    ensures Unique(a + b)
  {
    forall j, k | 0 <= j < k < |a + b| ensures (a + b)[j] != (a + b)[k] {
      if k >= |a| && j < |a| {
        assert (a + b)[j] in a && (a + b)[k] in b;
      } else if j >= |a| {
        assert (a + b)[j] == b[j - |a|] && (a + b)[k] == b[k - |a|];
      }
    }
  }

  /** In a distinct shape, the in-order sequence lists every slot once. */
  lemma {:induction false} OrderUnique(t: Tree)
    requires Distinct(t)
    ensures Unique(Order(t))
  {
    match t
    case Nil =>
    case Nd(l, i, r) =>
      OrderUnique(l);
      OrderUnique(r);
      OrderIds(l);
      OrderIds(r);
      UniqueConcat(Order(l), [i]);
      UniqueConcat(Order(l) + [i], Order(r));
  }

  /** The in-order sequence splits around any subtree, and `Replace` swaps
      only the middle part. */
  lemma {:induction false} SplitAt(t: Tree, x: nat, u: Tree)
    requires x in Ids(t)
    ensures Order(t) == Pre(t, x) + Order(Sub(t, x)) + Post(t, x)
    ensures Order(Replace(t, x, u)) == Pre(t, x) + Order(u) + Post(t, x)
  {
    match t
    case Nd(l, i, r) =>
      if i == x {
      } else if x in Ids(l) {
        SplitAt(l, x, u);
        var P, Q := Pre(l, x), Post(l, x);
        Append3(P, Order(Sub(l, x)), Q, i, Order(r));
        Append3(P, Order(u), Q, i, Order(r));
      } else {
        SplitAt(r, x, u);
        var P, Q := Pre(r, x), Post(r, x);
        Prepend3(Order(l), i, P, Order(Sub(r, x)), Q);
        Prepend3(Order(l), i, P, Order(u), Q);
      }
  }

  lemma {:induction false} Append3(P: seq<nat>, S: seq<nat>, Q: seq<nat>, i: nat, R: seq<nat>)
    ensures (P + S + Q) + [i] + R == P + S + (Q + [i] + R)
  {
  }

  lemma {:induction false} Prepend3(L: seq<nat>, i: nat, P: seq<nat>, S: seq<nat>, Q: seq<nat>)
    ensures L + [i] + (P + S + Q) == (L + [i] + P) + S + Q
  {
  }

  /** In a distinct shape, replacing the subtree at `x` swaps exactly its slots. */
  lemma {:induction false} ReplaceIds(t: Tree, x: nat, u: Tree)
    requires Distinct(t) && x in Ids(t)
    ensures Ids(Replace(t, x, u)) == (Ids(t) - Ids(Sub(t, x))) + Ids(u)
    ensures RootOf(Replace(t, x, u)) == if x == RootOf(t) then RootOf(u) else RootOf(t)
  {
    match t
    case Nd(l, i, r) =>
      if i == x {
      } else if x in Ids(l) {
        ReplaceIds(l, x, u);
      } else {
        ReplaceIds(r, x, u);
      }
  }

  lemma {:induction false} ReplaceDistinct(t: Tree, x: nat, u: Tree)
    requires Distinct(t) && x in Ids(t) && Distinct(u)
    requires Ids(u) !! (Ids(t) - Ids(Sub(t, x)))
    ensures Distinct(Replace(t, x, u))
  {
    match t
    case Nd(l, i, r) =>
      if i == x {
      } else if x in Ids(l) {
        ReplaceDistinct(l, x, u);
        ReplaceIds(l, x, u);
      } else {
        ReplaceDistinct(r, x, u);
        ReplaceIds(r, x, u);
      }
  }

  /** The top of the replacing subtree sits at the depth the replaced one had. */
  lemma {:induction false} ReplaceDepth(t: Tree, x: nat, u: Tree)
    requires Distinct(t) && x in Ids(t) && u.Nd? && Ids(u) == Ids(Sub(t, x))
    ensures u.id in Ids(Replace(t, x, u))
    ensures Depth(Replace(t, x, u), u.id) == Depth(t, x)
  {
    match t
    case Nd(l, i, r) =>
      if i == x {
      } else if x in Ids(l) {
        ReplaceDepth(l, x, u);
        ReplaceIds(l, x, u);
      } else {
        ReplaceDepth(r, x, u);
        ReplaceIds(r, x, u);
      }
  }

  /** The children of the subtree at `x` are themselves the subtrees at their tops. */
  lemma {:induction false} SubChildren(t: Tree, x: nat)
    requires Distinct(t) && x in Ids(t)
    ensures Sub(t, x).left.Nd? ==> Sub(t, x).left.id in Ids(t) && Sub(t, Sub(t, x).left.id) == Sub(t, x).left
    ensures Sub(t, x).right.Nd? ==> Sub(t, x).right.id in Ids(t) && Sub(t, Sub(t, x).right.id) == Sub(t, x).right
  {
    match t
    case Nd(l, i, r) =>
      if i == x {
      } else if x in Ids(l) {
        SubChildren(l, x);
      } else {
        SubChildren(r, x);
      }
  }

  lemma {:induction false} SubDistinct(t: Tree, x: nat)
    requires Distinct(t) && x in Ids(t)
    ensures Distinct(Sub(t, x))
  {
    match t
    case Nd(l, i, r) =>
      if i == x {
      } else if x in Ids(l) {
        SubDistinct(l, x);
      } else {
        SubDistinct(r, x);
      }
  }

  /** A slot inside the subtree at `z`: its own subtree and the slots before
      it are found by going through `z`. */
  lemma {:induction false} SubNested(t: Tree, z: nat, s: nat)
    requires Distinct(t) && z in Ids(t) && s in Ids(Sub(t, z))
    ensures s in Ids(t)
    ensures Sub(t, s) == Sub(Sub(t, z), s)
    ensures Pre(t, s) == Pre(t, z) + Pre(Sub(t, z), s)
  {
    match t
    case Nd(l, i, r) =>
      if i == z {
      } else if z in Ids(l) {
        SubNested(l, z, s);
      } else {
        SubNested(r, z, s);
      }
  }

  /** The first slot in in-order has no left child and nothing before it. */
  lemma {:induction false} FirstInOrder(t: Tree)
    requires Distinct(t) && t.Nd?
    ensures Order(t) != [] && Order(t)[0] in Ids(t)
    ensures Sub(t, Order(t)[0]).left == Nil
    ensures Pre(t, Order(t)[0]) == []
  {
    var s := Order(t)[0];
    if t.left.Nil? {
    } else {
      FirstInOrder(t.left);
      assert Order(t)[0] == Order(t.left)[0];
    }
  }

  /** The last slot in in-order has no right child and nothing after it. */
  lemma {:induction false} LastInOrder(t: Tree)
    requires Distinct(t) && t.Nd?
    ensures Order(t) != [] && Order(t)[|Order(t)| - 1] in Ids(t)
    ensures Sub(t, Order(t)[|Order(t)| - 1]).right == Nil
    ensures Post(t, Order(t)[|Order(t)| - 1]) == []
  {
    if t.right.Nil? {
    } else {
      LastInOrder(t.right);
      assert Order(t)[|Order(t)| - 1] == Order(t.right)[|Order(t.right)| - 1];
    }
  }

  lemma {:induction false} FollowNil()
    ensures forall path :: Follow(Nil, path) == Nil
  {
    forall path ensures Follow(Nil, path) == Nil {
    }
  }

  /** `Deepest` is a path inside the tree, and no path inside is longer. */
  lemma {:induction false} DeepestIsLongest(t: Tree)
    ensures t.Nd? ==> Follow(t, Deepest(t)).Nd?
    ensures forall path :: Follow(t, path).Nd? ==> |path| <= |Deepest(t)|
  {
    FollowNil();
    match t
    case Nil =>
    case Nd(l, _, r) =>
      DeepestIsLongest(l);
      DeepestIsLongest(r);
      if !(r.Nil? && l.Nil?) {
        var d := Deepest(t);
        assert d[1..] == if d[0] then Deepest(l) else Deepest(r);
      }
      forall path | Follow(t, path).Nd? ensures |path| <= |Deepest(t)| {
        if path != [] {
          var c := if path[0] then l else r;
          assert Follow(c, path[1..]).Nd?;
        }
      }
  }
}
