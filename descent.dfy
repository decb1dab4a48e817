/** How keys are found and placed: the descent that both `insert` and
    `search` of RBTree/tree.hpp make (a key smaller than the node's goes
    right, a greater or equal one goes left), and what unlinking a node with
    at most one child does to the in-order key sequence. */
module Descent {
  import opened Shape
  import opened Links

  /** Slot `x` lies on the path that the descent for key `v` takes. */
  ghost predicate OnPath(t: Tree, x: nat, v: int, nodes: seq<Node>)
  {
    match t
    case Nil => false
    case Nd(l, i, r) =>
      i == x || (if v < DataAt(nodes, i) then OnPath(r, x, v, nodes) else OnPath(l, x, v, nodes))
  }

  /** The shape after the descent for key `v` hangs the new leaf `nn` in the
      empty slot where it ends. */
  ghost function Attach(t: Tree, v: int, nn: nat, nodes: seq<Node>): Tree
  {
    match t
    case Nil => Nd(Nil, nn, Nil)
    case Nd(l, i, r) =>
      if v < DataAt(nodes, i) then Nd(l, i, Attach(r, v, nn, nodes))
      else Nd(Attach(l, v, nn, nodes), i, r)
  }

  lemma {:induction false} OnPathInside(t: Tree, x: nat, v: int, nodes: seq<Node>)
    requires OnPath(t, x, v, nodes)
    ensures x in Ids(t)
  {
    match t
    case Nd(l, i, r) =>
      if i != x {
        if v < DataAt(nodes, i) { OnPathInside(r, x, v, nodes); } else { OnPathInside(l, x, v, nodes); }
      }
  }

  /** From a slot on the path, the descent continues to the child on the
      side the key comparison picks. */
  lemma {:induction false} OnPathStep(t: Tree, x: nat, v: int, nodes: seq<Node>)
    requires Distinct(t) && OnPath(t, x, v, nodes)
    ensures x in Ids(t)
    ensures v < DataAt(nodes, x) && Sub(t, x).right.Nd? ==> OnPath(t, Sub(t, x).right.id, v, nodes)
    ensures v >= DataAt(nodes, x) && Sub(t, x).left.Nd? ==> OnPath(t, Sub(t, x).left.id, v, nodes)
  {
    OnPathInside(t, x, v, nodes);
    match t
    case Nd(l, i, r) =>
      if i == x {
        if r.Nd? { assert OnPath(r, r.id, v, nodes); }
        if l.Nd? { assert OnPath(l, l.id, v, nodes); }
      } else if v < DataAt(nodes, i) {
        OnPathInside(r, x, v, nodes);
        OnPathStep(r, x, v, nodes);
      } else {
        OnPathInside(l, x, v, nodes);
        OnPathStep(l, x, v, nodes);
      }
  }

  /** Attaching follows the path through any slot on it. */
  lemma {:induction false} AttachThrough(t: Tree, x: nat, v: int, nn: nat, nodes: seq<Node>)
    requires Distinct(t) && OnPath(t, x, v, nodes)
    ensures x in Ids(t)
    ensures Attach(t, v, nn, nodes) == Replace(t, x, Attach(Sub(t, x), v, nn, nodes))
  {
    OnPathInside(t, x, v, nodes);
    match t
    case Nd(l, i, r) =>
      if i != x {
        if v < DataAt(nodes, i) {
          OnPathInside(r, x, v, nodes);
          AttachThrough(r, x, v, nn, nodes);
        } else {
          OnPathInside(l, x, v, nodes);
          AttachThrough(l, x, v, nn, nodes);
        }
      }
  }

  /** The new leaf ends the descent for its key: it lies on the key's path
      and is a leaf of the attached shape. */
  lemma {:induction false} AttachOnPath(t: Tree, v: int, nn: nat, nodes: seq<Node>)
    requires Distinct(t) && nn !in Ids(t)
    ensures OnPath(Attach(t, v, nn, nodes), nn, v, nodes)
    ensures nn in Ids(Attach(t, v, nn, nodes)) && Sub(Attach(t, v, nn, nodes), nn) == Nd(Nil, nn, Nil)
  {
    match t
    case Nil =>
    case Nd(l, i, r) =>
      AttachIds(l, v, nn, nodes);
      AttachIds(r, v, nn, nodes);
      if v < DataAt(nodes, i) {
        AttachOnPath(r, v, nn, nodes);
      } else {
        AttachOnPath(l, v, nn, nodes);
      }
  }

  lemma {:induction false} AttachIds(t: Tree, v: int, nn: nat, nodes: seq<Node>)
    ensures Ids(Attach(t, v, nn, nodes)) == Ids(t) + {nn}
    ensures Distinct(t) && nn !in Ids(t) ==> Distinct(Attach(t, v, nn, nodes))
    ensures t.Nd? ==> RootOf(Attach(t, v, nn, nodes)) == RootOf(t)
  {
    match t
    case Nil =>
    case Nd(l, i, r) =>
      AttachIds(l, v, nn, nodes);
      AttachIds(r, v, nn, nodes);
  }

  /** The keys of a node's left subtree are at least its key, those of its
      right subtree at most its key. */
  lemma {:induction false} DescendingNd(l: Tree, i: nat, r: Tree, nodes: seq<Node>)
    requires Descending(Keys(Nd(l, i, r), nodes))
    ensures Descending(Keys(l, nodes)) && Descending(Keys(r, nodes))
    ensures forall x :: x in Keys(l, nodes) ==> x >= DataAt(nodes, i)
    ensures forall x :: x in Keys(r, nodes) ==> x <= DataAt(nodes, i)
  {
    KeysNd(l, i, r, nodes);
    var a, k, b := Keys(l, nodes), DataAt(nodes, i), Keys(r, nodes);
    DescendingConcat(a + [k], b);
    DescendingConcat(a, [k]);
    assert k in a + [k] && k in [k];
  }

  /** Attaching a leaf by the descent rule adds exactly its key. */
  lemma {:induction false} AttachCount(t: Tree, v: int, nn: nat, nodes: seq<Node>)
    requires nn < |nodes| && nodes[nn].data == v
    ensures multiset(Keys(Attach(t, v, nn, nodes), nodes)) == multiset(Keys(t, nodes)) + multiset{v}
  {
    match t
    case Nil =>
      assert Order(Nd(Nil, nn, Nil)) == [nn];
      assert Keys(Attach(t, v, nn, nodes), nodes) == [v];
    case Nd(l, i, r) =>
      MultisetNd(l, i, r, nodes);
      if v < DataAt(nodes, i) {
        AttachCount(r, v, nn, nodes);
        MultisetNd(l, i, Attach(r, v, nn, nodes), nodes);
      } else {
        AttachCount(l, v, nn, nodes);
        MultisetNd(Attach(l, v, nn, nodes), i, r, nodes);
      }
  }

  /** The keys of a node, counted: those of its two subtrees and its own. */
  lemma {:induction false} MultisetNd(l: Tree, i: nat, r: Tree, nodes: seq<Node>)
    ensures multiset(Keys(Nd(l, i, r), nodes))
      == multiset(Keys(l, nodes)) + multiset{DataAt(nodes, i)} + multiset(Keys(r, nodes))
  {
    KeysNd(l, i, r, nodes);
  }

  /** Attaching a leaf by the descent rule keeps the in-order keys
      non-increasing. */
  lemma {:induction false} AttachOrder(t: Tree, v: int, nn: nat, nodes: seq<Node>)
    requires nn < |nodes| && nodes[nn].data == v
    requires Descending(Keys(t, nodes))
    ensures Descending(Keys(Attach(t, v, nn, nodes), nodes))
  {
    match t
    case Nil =>
      assert Order(Nd(Nil, nn, Nil)) == [nn];
      assert Keys(Attach(t, v, nn, nodes), nodes) == [v];
    case Nd(l, i, r) =>
      var k := DataAt(nodes, i);
      DescendingNd(l, i, r, nodes);
      if v < k {
        var r' := Attach(r, v, nn, nodes);
        AttachOrder(r, v, nn, nodes);
        AttachAtMost(r, v, nn, nodes, k);
        KeysNd(l, i, r', nodes);
        var a, b := Keys(l, nodes), Keys(r', nodes);
        DescendingConcat(a, [k]);
        DescendingConcat(a + [k], b);
      } else {
        var l' := Attach(l, v, nn, nodes);
        AttachOrder(l, v, nn, nodes);
        AttachAtLeast(l, v, nn, nodes, k);
        KeysNd(l', i, r, nodes);
        var a, b := Keys(l', nodes), Keys(r, nodes);
        DescendingConcat(a, [k]);
        DescendingConcat(a + [k], b);
      }
  }

  /** Attaching a key at most `k` below a subtree whose keys are at most
      `k` keeps them so. */
  lemma {:induction false} AttachAtMost(t: Tree, v: int, nn: nat, nodes: seq<Node>, k: int)
    requires nn < |nodes| && nodes[nn].data == v && v <= k
    requires forall y :: y in Keys(t, nodes) ==> y <= k
    ensures forall y :: y in Keys(Attach(t, v, nn, nodes), nodes) ==> y <= k
  {
    AttachCount(t, v, nn, nodes);
    forall y | y in Keys(Attach(t, v, nn, nodes), nodes) ensures y <= k {
      assert y in multiset(Keys(Attach(t, v, nn, nodes), nodes));
      if y != v {
        assert y in multiset(Keys(t, nodes));
        assert y in Keys(t, nodes);
      }
    }
  }

  /** Attaching a key at least `k` below a subtree whose keys are at least
      `k` keeps them so. */
  lemma {:induction false} AttachAtLeast(t: Tree, v: int, nn: nat, nodes: seq<Node>, k: int)
    requires nn < |nodes| && nodes[nn].data == v && v >= k
    requires forall y :: y in Keys(t, nodes) ==> y >= k
    ensures forall y :: y in Keys(Attach(t, v, nn, nodes), nodes) ==> y >= k
  {
    AttachCount(t, v, nn, nodes);
    forall y | y in Keys(Attach(t, v, nn, nodes), nodes) ensures y >= k {
      assert y in multiset(Keys(Attach(t, v, nn, nodes), nodes));
      if y != v {
        assert y in multiset(Keys(t, nodes));
        assert y in Keys(t, nodes);
      }
    }
  }

  /** The key held by any slot of the shape is among its keys. */
  lemma {:induction false} KeyOfSlot(t: Tree, x: nat, nodes: seq<Node>)
    requires x in Ids(t)
    ensures DataAt(nodes, x) in Keys(t, nodes)
  {
    OrderIds(t);
    var k :| 0 <= k < |Order(t)| && Order(t)[k] == x;
    assert Keys(t, nodes)[k] == DataAt(nodes, x);
  }

  lemma {:induction false} KeysAtFrame(ids: seq<nat>, nodes: seq<Node>, nodes': seq<Node>)
    requires forall i :: i in ids ==> DataAt(nodes', i) == DataAt(nodes, i)
    ensures KeysAt(ids, nodes') == KeysAt(ids, nodes)
  {
    forall k | 0 <= k < |ids| ensures KeysAt(ids, nodes')[k] == KeysAt(ids, nodes)[k] {
      assert ids[k] in ids;
    }
  }

  lemma {:induction false} InRight(l: Tree, i: nat, r: Tree, s: nat)
    requires Distinct(Nd(l, i, r)) && s in Ids(r)
    ensures Pre(Nd(l, i, r), s) == Order(l) + [i] + Pre(r, s)
    ensures Sub(Nd(l, i, r), s) == Sub(r, s)
  {
    assert s !in Ids(l) && s != i;
  }

  /** The first slot of `z`'s right subtree in in-order has no left child
      and comes right after `z`. */
  lemma {:induction false} SuccessorSplit(t: Tree, z: nat)
    requires Distinct(t) && z in Ids(t) && Sub(t, z).right.Nd?
    ensures var s := Order(Sub(t, z).right)[0];
      && s in Ids(t) && s != z && Sub(t, s).left == Nil
      && Pre(t, s) == Pre(t, z) + Order(Sub(t, z).left) + [z]
  {
    var sz := Sub(t, z);
    SubDistinct(t, z);
    var zl, zr := sz.left, sz.right;
    assert sz == Nd(zl, z, zr);
    FirstInOrder(zr);
    var s := Order(zr)[0];
    InRight(zl, z, zr, s);
    SubNested(t, z, s);
  }

  lemma {:induction false} UnlinkSelfOrder(t: Tree, z: nat, u: Tree)
    requires Distinct(t) && z in Ids(t)
    requires Sub(t, z).left.Nil? || Sub(t, z).right.Nil?
    requires u == if Sub(t, z).left.Nd? then Sub(t, z).left else Sub(t, z).right
    ensures var A, B := Pre(t, z) + Order(Sub(t, z).left), Order(Sub(t, z).right) + Post(t, z);
      Order(t) == A + [z] + B && Order(Replace(t, z, u)) == A + B
  {
    var sz := Sub(t, z);
    SplitAt(t, z, u);
    var P, L, R, Q := Pre(t, z), Order(sz.left), Order(sz.right), Post(t, z);
    assert Order(sz) == L + [z] + R;
    assert Order(u) == L + R by {
      if sz.left.Nd? { assert R == []; } else { assert L == []; }
    }
    Regroup(P, L, z, R, Q);
  }

  lemma {:induction false} Regroup(P: seq<nat>, L: seq<nat>, z: nat, R: seq<nat>, Q: seq<nat>)
    ensures P + (L + [z] + R) + Q == (P + L) + [z] + (R + Q)
    ensures P + (L + R) + Q == (P + L) + (R + Q)
  {
  }

  lemma {:induction false} UnlinkNextOrder(t: Tree, z: nat, u: Tree)
    requires Distinct(t) && z in Ids(t) && Sub(t, z).right.Nd?
    requires var s := Order(Sub(t, z).right)[0]; s in Ids(t) && u == Sub(t, s).right
    ensures var s := Order(Sub(t, z).right)[0];
      var A, C := Pre(t, z) + Order(Sub(t, z).left), Order(u) + Post(t, s);
      Order(t) == A + [z] + [s] + C && Order(Replace(t, s, u)) == A + [z] + C
  {
    var s := Order(Sub(t, z).right)[0];
    SuccessorSplit(t, z);
    SplitAt(t, s, u);
    var A := Pre(t, z) + Order(Sub(t, z).left);
    assert Order(Sub(t, s)) == [s] + Order(u);
    RegroupNext(A, z, s, Order(u), Post(t, s));
  }

  /** Regrouping the in-order pieces around `z` and its successor `s`. */
  lemma {:induction false} RegroupNext(A: seq<nat>, z: nat, s: nat, U: seq<nat>, P: seq<nat>)
    ensures (A + [z]) + ([s] + U) + P == A + [z] + [s] + (U + P)
    ensures (A + [z]) + U + P == A + [z] + (U + P)
  {
  }

  /** The keys of a slot sequence in which `z`, found once at position
      `|A|`, is followed by `mid`, lose the entry `z` held when `z` and `mid`
      give way to `kept`, which shows `mid`'s keys. */
  lemma {:induction false} KeysDrop(A: seq<nat>, z: nat, mid: seq<nat>, kept: seq<nat>, rest: seq<nat>, nodes: seq<Node>, nodes': seq<Node>)
    requires z !in A && z !in rest
    requires forall i :: i != z ==> DataAt(nodes', i) == DataAt(nodes, i)
    requires KeysAt(kept, nodes') == KeysAt(mid, nodes)
    ensures var K := KeysAt(A + [z] + mid + rest, nodes);
      && |A| < |K| && K[|A|] == DataAt(nodes, z)
      && KeysAt(A + kept + rest, nodes') == K[..|A|] + K[|A| + 1..]
  {
    KeysAtFrame(A, nodes, nodes');
    KeysAtFrame(rest, nodes, nodes');
    var ka, kr, km := KeysAt(A, nodes), KeysAt(rest, nodes), KeysAt(mid, nodes);
    KeysAround(A, z, mid, rest, nodes);
    KeysThree(A, kept, rest, nodes');
    Pick(ka, DataAt(nodes, z), km + kr);
  }

  /** `KeysDrop` with nothing between `z` and `rest`. */
  lemma {:induction false} KeysDropOne(A: seq<nat>, z: nat, rest: seq<nat>, nodes: seq<Node>, nodes': seq<Node>)
    requires z !in A && z !in rest
    requires forall i :: i != z ==> DataAt(nodes', i) == DataAt(nodes, i)
    ensures var K := KeysAt(A + [z] + rest, nodes);
      && |A| < |K| && K[|A|] == DataAt(nodes, z)
      && KeysAt(A + rest, nodes') == K[..|A|] + K[|A| + 1..]
  {
    KeysDrop(A, z, [], [], rest, nodes, nodes');
    assert A + [z] + [] + rest == A + [z] + rest;
    assert A + [] + rest == A + rest;
  }

  /** The keys of `A + [z] + mid + rest`, piece by piece. */
  lemma {:induction false} KeysAround(A: seq<nat>, z: nat, mid: seq<nat>, rest: seq<nat>, nodes: seq<Node>)
    ensures KeysAt(A + [z] + mid + rest, nodes)
      == KeysAt(A, nodes) + [DataAt(nodes, z)] + (KeysAt(mid, nodes) + KeysAt(rest, nodes))
  {
    var ka, kr, km := KeysAt(A, nodes), KeysAt(rest, nodes), KeysAt(mid, nodes);
    var dz := DataAt(nodes, z);
    assert KeysAt([z], nodes) == [dz];
    KeysAtConcat(A + [z] + mid, rest, nodes);
    KeysAtConcat(A + [z], mid, nodes);
    KeysAtConcat(A, [z], nodes);
    assert ka + [dz] + km + kr == ka + [dz] + (km + kr);
  }

  /** The keys of `A + kept + rest`, piece by piece. */
  lemma {:induction false} KeysThree(A: seq<nat>, kept: seq<nat>, rest: seq<nat>, nodes: seq<Node>)
    ensures KeysAt(A + kept + rest, nodes) == KeysAt(A, nodes) + (KeysAt(kept, nodes) + KeysAt(rest, nodes))
  {
    KeysAtConcat(A + kept, rest, nodes);
    KeysAtConcat(A, kept, nodes);
    var ka, kk, kr := KeysAt(A, nodes), KeysAt(kept, nodes), KeysAt(rest, nodes);
    assert ka + kk + kr == ka + (kk + kr);
  }

  /** Unlinking slot `s` (which has at most one child, `u`), after its key
      was copied into `z`, where `s` is `z` itself or the first slot of
      `z`'s right subtree in in-order: the in-order keys lose exactly the
      entry `z` held. */
  lemma {:induction false} UnlinkKeys(t: Tree, nodes: seq<Node>, nodes': seq<Node>, z: nat, s: nat, u: Tree)
    requires Distinct(t) && s in Ids(t) && z in Ids(t)
    requires Sub(t, s).left.Nil? || Sub(t, s).right.Nil?
    requires u == if Sub(t, s).left.Nd? then Sub(t, s).left else Sub(t, s).right
    requires s == z || (Sub(t, z).right.Nd? && s == Order(Sub(t, z).right)[0])
    requires forall i :: i != z ==> DataAt(nodes', i) == DataAt(nodes, i)
    requires DataAt(nodes', z) == DataAt(nodes, s)
    ensures var A, K := Pre(t, z) + Order(Sub(t, z).left), Keys(t, nodes);
      && |A| < |K| && K[|A|] == DataAt(nodes, z)
      && Keys(Replace(t, s, u), nodes') == K[..|A|] + K[|A| + 1..]
  {
    if s == z {
      UnlinkSelfKeys(t, nodes, nodes', z, u);
    } else {
      SuccessorSplit(t, z);
      UnlinkNextKeys(t, nodes, nodes', z, u);
    }
  }

  lemma {:induction false} UnlinkSelfKeys(t: Tree, nodes: seq<Node>, nodes': seq<Node>, z: nat, u: Tree)
    requires Distinct(t) && z in Ids(t)
    requires Sub(t, z).left.Nil? || Sub(t, z).right.Nil?
    requires u == if Sub(t, z).left.Nd? then Sub(t, z).left else Sub(t, z).right
    requires forall i :: i != z ==> DataAt(nodes', i) == DataAt(nodes, i)
    ensures var A, K := Pre(t, z) + Order(Sub(t, z).left), Keys(t, nodes);
      && |A| < |K| && K[|A|] == DataAt(nodes, z)
      && Keys(Replace(t, z, u), nodes') == K[..|A|] + K[|A| + 1..]
  {
    var A, rest := Pre(t, z) + Order(Sub(t, z).left), Order(Sub(t, z).right) + Post(t, z);
    UnlinkSelfApart(t, z, u);
    KeysDropOne(A, z, rest, nodes, nodes');
  }

  /** The in-order of `t` around `z`, with `z` neither before nor after
      itself. */
  lemma {:induction false} UnlinkSelfApart(t: Tree, z: nat, u: Tree)
    requires Distinct(t) && z in Ids(t)
    requires Sub(t, z).left.Nil? || Sub(t, z).right.Nil?
    requires u == if Sub(t, z).left.Nd? then Sub(t, z).left else Sub(t, z).right
    ensures var A, B := Pre(t, z) + Order(Sub(t, z).left), Order(Sub(t, z).right) + Post(t, z);
      && Order(t) == A + [z] + B && Order(Replace(t, z, u)) == A + B
      && z !in A && z !in B
  {
    var A, B := Pre(t, z) + Order(Sub(t, z).left), Order(Sub(t, z).right) + Post(t, z);
    OrderUnique(t);
    UnlinkSelfOrder(t, z, u);
    Apart(A, z, B);
  }

  lemma {:induction false} UnlinkNextKeys(t: Tree, nodes: seq<Node>, nodes': seq<Node>, z: nat, u: Tree)
    requires Distinct(t) && z in Ids(t) && Sub(t, z).right.Nd?
    requires var s := Order(Sub(t, z).right)[0];
      && s in Ids(t) && u == Sub(t, s).right
      && (forall i :: i != z ==> DataAt(nodes', i) == DataAt(nodes, i))
      && DataAt(nodes', z) == DataAt(nodes, s)
    ensures var A, K := Pre(t, z) + Order(Sub(t, z).left), Keys(t, nodes);
      && |A| < |K| && K[|A|] == DataAt(nodes, z)
      && Keys(Replace(t, Order(Sub(t, z).right)[0], u), nodes') == K[..|A|] + K[|A| + 1..]
  {
    var s := Order(Sub(t, z).right)[0];
    var A, rest := Pre(t, z) + Order(Sub(t, z).left), Order(u) + Post(t, s);
    assert z !in A && z !in rest by {
      OrderUnique(t);
      UnlinkNextOrder(t, z, u);
      ApartAround(A, z, [s], rest);
    }
    assert KeysAt([z], nodes') == KeysAt([s], nodes);
    UnlinkNextOrder(t, z, u);
    KeysDrop(A, z, [s], [z], rest, nodes, nodes');
  }

  lemma {:induction false} Pick(a: seq<int>, e: int, b: seq<int>)
    ensures (a + [e] + b)[|a|] == e
    ensures (a + [e] + b)[..|a|] + (a + [e] + b)[|a| + 1..] == a + b
  {
    var s := a + [e] + b;
    assert s[..|a|] == a;
    assert s[|a| + 1..] == b;
  }

  /** In a sequence without repeats, the entry `z` occurs neither before
      nor after its own place. */
  lemma {:induction false} Apart(a: seq<nat>, z: nat, b: seq<nat>)
    requires Unique(a + [z] + b)
    ensures z !in a && z !in b
  {
    var s := a + [z] + b;
    assert s[|a|] == z;
    forall j | 0 <= j < |a| ensures a[j] != z {
      assert s[j] == a[j];
    }
    forall k | 0 <= k < |b| ensures b[k] != z {
      assert s[|a| + 1 + k] == b[k];
    }
  }

  /** `Apart` with a stretch `m` between `z` and `b`. */
  lemma {:induction false} ApartAround(a: seq<nat>, z: nat, m: seq<nat>, b: seq<nat>)
    requires Unique(a + [z] + m + b)
    ensures z !in a && z !in b
  {
    var s := a + [z] + m + b;
    assert s[|a|] == z;
    forall j | 0 <= j < |a| ensures a[j] != z {
      assert s[j] == a[j];
    }
    forall k | 0 <= k < |b| ensures b[k] != z {
      assert s[|a| + 1 + |m| + k] == b[k];
    }
  }

  /** Hanging the fresh node `nn` in the empty slot below `cur` where the
      descent ends makes the arena spell out the attached shape. */
  lemma {:induction false} AttachLinked(t: Tree, nodes: seq<Node>, nodes': seq<Node>, cur: nat, nn: nat, v: int)
    requires Linked(t, nodes, Null) && Distinct(t) && Within(t, |nodes|)
    requires OnPath(t, cur, v, nodes) && nn < |nodes| && nn !in Ids(t)
    requires nodes[nn].left == Null && nodes[nn].right == Null
    requires cur in Ids(t) && cur < |nodes| && |nodes'| == |nodes|
    requires if v < DataAt(nodes, cur) then Sub(t, cur).right == Nil else Sub(t, cur).left == Nil
    requires nodes'[nn] == nodes[nn].(parent := cur)
    requires nodes'[cur] == if v < DataAt(nodes, cur) then nodes[cur].(right := nn) else nodes[cur].(left := nn)
    requires forall i :: 0 <= i < |nodes| && i != cur && i != nn ==> nodes'[i] == nodes[i]
    ensures Linked(Attach(t, v, nn, nodes), nodes', Null)
  {
    var s := Sub(t, cur);
    var q := nodes[cur].parent;
    AttachThrough(t, cur, v, nn, nodes);
    LinkedSub(t, nodes, Null, cur);
    SubDistinct(t, cur);
    if cur != RootOf(t) { ParentAbove(t, nodes, Null, cur); }
    var leaf := Nd(Nil, nn, Nil);
    assert Ids(s) == Ids(s.left) + {cur} + Ids(s.right);
    var u := Attach(s, v, nn, nodes);
    if v < DataAt(nodes, cur) {
      assert u == Nd(s.left, cur, leaf);
      Relinked(s.left, nodes, nodes', cur, cur);
      assert Linked(leaf, nodes', cur);
    } else {
      assert u == Nd(leaf, cur, s.right);
      Relinked(s.right, nodes, nodes', cur, cur);
      assert Linked(leaf, nodes', cur);
    }
    assert Linked(u, nodes', q);
    forall i | i in Ids(t) && i !in Ids(s) && i != q
      ensures i < |nodes| && i < |nodes'| && SameLinks(nodes'[i], nodes[i])
    {
      assert i != cur && i != nn;
    }
    ReplaceLinked(t, nodes, nodes', Null, cur, u);
  }

  /** Everything attaching a leaf keeps or changes: the arena stays closed
      and spells out the attached shape, which has one more slot, and whose
      keys are the old ones plus `v`, still non-increasing in in-order. */
  lemma {:induction false} AttachKeeps(t: Tree, nodes: seq<Node>, nodes': seq<Node>, cur: nat, nn: nat)
    requires Linked(t, nodes, Null) && Distinct(t) && Within(t, |nodes|) && Closed(nodes)
    requires Descending(Keys(t, nodes))
    requires var v := DataAt(nodes, nn);
      && OnPath(t, cur, v, nodes) && nn < |nodes| && nn !in Ids(t)
      && nodes[nn].left == Null && nodes[nn].right == Null
      && cur in Ids(t) && cur < |nodes| && |nodes'| == |nodes|
      && (if v < DataAt(nodes, cur) then Sub(t, cur).right == Nil else Sub(t, cur).left == Nil)
      && nodes'[nn] == nodes[nn].(parent := cur)
      && nodes'[cur] == (if v < DataAt(nodes, cur) then nodes[cur].(right := nn) else nodes[cur].(left := nn))
      && (forall i :: 0 <= i < |nodes| && i != cur && i != nn ==> nodes'[i] == nodes[i])
    ensures var v := DataAt(nodes, nn);
      var t' := Attach(t, v, nn, nodes);
      && Closed(nodes') && Linked(t', nodes', Null) && Distinct(t') && Within(t', |nodes'|)
      && RootOf(t') == RootOf(t) && Ids(t') == Ids(t) + {nn}
      && Descending(Keys(t', nodes'))
      && multiset(Keys(t', nodes')) == multiset(Keys(t, nodes)) + multiset{v}
  {
    var v := DataAt(nodes, nn);
    var t' := Attach(t, v, nn, nodes);
    AttachLinked(t, nodes, nodes', cur, nn, v);
    AttachIds(t, v, nn, nodes);
    AttachCount(t, v, nn, nodes);
    AttachOrder(t, v, nn, nodes);
    forall i | 0 <= i < |nodes|
      ensures nodes'[i].data == nodes[i].data
      ensures Ref(nodes'[i].left, |nodes|) && Ref(nodes'[i].right, |nodes|) && Ref(nodes'[i].parent, |nodes|)
    {
    }
    KeysFrame(t', nodes, nodes');
  }

  /** Dropping one entry of a sequence drops exactly that entry from its multiset. */
  lemma {:induction false} MultisetDrop(s: seq<int>, k: nat)
    requires k < |s|
    ensures multiset(s[..k] + s[k + 1..]) == multiset(s) - multiset{s[k]}
  {
    assert s == s[..k] + [s[k]] + s[k + 1..];
  }

  /** `K'` is `K` with one entry equal to `d` dropped. */
  lemma {:induction false} DropAt(K: seq<int>, K': seq<int>, k: nat, d: int)
    requires k < |K| && K[k] == d && K' == Without(K, k)
    ensures exists j :: 0 <= j < |K| && K[j] == d && K' == Without(K, j)
    ensures multiset(K') == multiset(K) - multiset{d}
  {
    MultisetDrop(K, k);
  }

  /** The frame of unlinking slot `s` of `t`, which has at most one child
      subtree `u`: `s`'s parent `q` now points to `u`'s top `c`, `c` points
      back to `q`, and every other link stays. */
  ghost predicate Unlinked(t: Tree, nodes: seq<Node>, nodes': seq<Node>, s: nat, u: Tree)
    requires s < |nodes| && |nodes'| == |nodes|
  {
    var q, c := nodes[s].parent, RootOf(u);
    && (forall i :: 0 <= i < |nodes| && i != q && i != c ==> SameLinks(nodes'[i], nodes[i]))
    && (0 <= q < |nodes| ==> SameLinks(nodes'[q], ReplaceChild(nodes[q], s, c)))
    && (0 <= c < |nodes| ==> SameLinks(nodes'[c], nodes[c].(parent := q)))
  }

  /** The three writes of the splice in `remove` — `s`'s parent `q` takes
      `s`'s child `c` in `s`'s place, `c`'s parent becomes `q`, and `s`'s
      key goes into `z` — make up an unlinking of `s`. */
  lemma {:induction false} SpliceUnlinks(t: Tree, nodes: seq<Node>, n1: seq<Node>, n2: seq<Node>, n3: seq<Node>, z: nat, s: nat, u: Tree)
    requires Linked(t, nodes, Null) && Distinct(t) && s in Ids(t) && s < |nodes| && z < |nodes|
    requires Sub(t, s).left.Nil? || Sub(t, s).right.Nil?
    requires u == if Sub(t, s).left.Nd? then Sub(t, s).left else Sub(t, s).right
    requires var q, c := nodes[s].parent, RootOf(u);
      && Ref(q, |nodes|) && Ref(c, |nodes|)
      && n1 == (if q == Null then nodes else nodes[q := ReplaceChild(nodes[q], s, c)])
      && n2 == (if c == Null then n1 else n1[c := n1[c].(parent := q)])
      && n3 == n2[z := n2[z].(data := n2[s].data)]
    ensures |n3| == |nodes| && Unlinked(t, nodes, n3, s, u)
    ensures forall i :: 0 <= i < |nodes| ==> n3[i].data == (if i == z then nodes[s].data else nodes[i].data)
  {
    var q, c := nodes[s].parent, RootOf(u);
    var ss := Sub(t, s);
    LinkedSub(t, nodes, Null, s);
    assert ss == Nd(ss.left, s, ss.right);
    if c != Null {
      assert c in Ids(ss);
      SubDistinct(t, s);
      if q != Null {
        ParentAbove(t, nodes, Null, s);
        assert q !in Ids(ss);
      }
    }
  }

  /** Unlinking `s` leaves a closed arena that spells out the shape with
      `s`'s subtree replaced by `u`, which has every slot but `s`. */
  lemma {:induction false} UnlinkLinked(t: Tree, nodes: seq<Node>, nodes': seq<Node>, s: nat, u: Tree)
    requires Linked(t, nodes, Null) && Distinct(t) && Closed(nodes)
    requires s in Ids(t) && s < |nodes| && |nodes'| == |nodes|
    requires Sub(t, s).left.Nil? || Sub(t, s).right.Nil?
    requires u == if Sub(t, s).left.Nd? then Sub(t, s).left else Sub(t, s).right
    requires Unlinked(t, nodes, nodes', s, u)
    ensures var t' := Replace(t, s, u);
      && Closed(nodes') && Linked(t', nodes', Null) && Distinct(t') && Within(t', |nodes'|)
      && Ids(t') == Ids(t) - {s}
      && RootOf(t') == (if nodes[s].parent == Null then RootOf(u) else RootOf(t))
  {
    var q, c := nodes[s].parent, RootOf(u);
    var ss := Sub(t, s);
    LinkedSub(t, nodes, Null, s);
    SubDistinct(t, s);
    assert ss == Nd(ss.left, s, ss.right);
    assert Linked(u, nodes, s);
    assert nodes[s].left == RootOf(ss.left) && nodes[s].right == RootOf(ss.right);
    assert q == Null <==> s == RootOf(t);
    if q != Null {
      ParentAbove(t, nodes, Null, s);
    }
    LinkedWithin(t, nodes, Null);
    assert Ids(u) <= Ids(ss) && s !in Ids(u);
    forall i | i in Ids(u)
      ensures i < |nodes| && i < |nodes'| && nodes'[i].left == nodes[i].left && nodes'[i].right == nodes[i].right
      ensures nodes'[i].parent == if i == RootOf(u) then q else nodes[i].parent
    {
      assert i in Ids(ss);
    }
    Relinked(u, nodes, nodes', s, q);
    ReplaceLinked(t, nodes, nodes', Null, s, u);
    ReplaceIds(t, s, u);
    ReplaceDistinct(t, s, u);
    LinkedWithin(Replace(t, s, u), nodes', Null);
    forall i | 0 <= i < |nodes'|
      ensures Ref(nodes'[i].left, |nodes'|) && Ref(nodes'[i].right, |nodes'|) && Ref(nodes'[i].parent, |nodes'|)
    {
    }
  }

  /** Everything unlinking slot `s` keeps or changes, where `s` is `z`
      itself or the first slot of `z`'s right subtree and `s`'s key has
      been copied into `z`: besides `UnlinkLinked`, the in-order keys lose
      exactly the entry `z` held, and stay non-increasing. */
  lemma {:induction false} UnlinkKeeps(t: Tree, nodes: seq<Node>, nodes': seq<Node>, z: nat, s: nat, u: Tree)
    requires Linked(t, nodes, Null) && Distinct(t) && Closed(nodes)
    requires Descending(Keys(t, nodes))
    requires z in Ids(t) && s in Ids(t) && s < |nodes| && z < |nodes| && |nodes'| == |nodes|
    requires Sub(t, s).left.Nil? || Sub(t, s).right.Nil?
    requires u == if Sub(t, s).left.Nd? then Sub(t, s).left else Sub(t, s).right
    requires s == z || (Sub(t, z).right.Nd? && s == Order(Sub(t, z).right)[0])
    requires forall i :: 0 <= i < |nodes| ==>
      nodes'[i].data == (if i == z then nodes[s].data else nodes[i].data)
    requires Unlinked(t, nodes, nodes', s, u)
    ensures var t', A, K := Replace(t, s, u), Pre(t, z) + Order(Sub(t, z).left), Keys(t, nodes);
      && Closed(nodes') && Linked(t', nodes', Null) && Distinct(t') && Within(t', |nodes'|)
      && Ids(t') == Ids(t) - {s}
      && RootOf(t') == (if nodes[s].parent == Null then RootOf(u) else RootOf(t))
      && |A| < |K| && K[|A|] == DataAt(nodes, z)
      && Keys(t', nodes') == K[..|A|] + K[|A| + 1..]
      && Descending(Keys(t', nodes'))
  {
    UnlinkLinked(t, nodes, nodes', s, u);
    forall i | i != z
      ensures DataAt(nodes', i) == DataAt(nodes, i)
    {
    }
    UnlinkKeys(t, nodes, nodes', z, s, u);
    var A, K := Pre(t, z) + Order(Sub(t, z).left), Keys(t, nodes);
    DescendingDrop(K, |A|);
  }

  /** The splice of `remove` on the arena, from the three writes to the
      tree it leaves: `Keys(t, nodes)` with the entry of `z` taken out. */
  lemma {:induction false} SpliceKeeps(t: Tree, nodes: seq<Node>, n1: seq<Node>, n2: seq<Node>, n3: seq<Node>, z: nat, s: nat, u: Tree, r: int)
    requires Linked(t, nodes, Null) && Distinct(t) && Closed(nodes)
    requires Descending(Keys(t, nodes))
    requires z in Ids(t) && s in Ids(t) && s < |nodes| && z < |nodes|
    requires Sub(t, s).left.Nil? || Sub(t, s).right.Nil?
    requires u == if Sub(t, s).left.Nd? then Sub(t, s).left else Sub(t, s).right
    requires s == z || (Sub(t, z).right.Nd? && s == Order(Sub(t, z).right)[0])
    requires var q, c := nodes[s].parent, RootOf(u);
      && Ref(q, |nodes|) && Ref(c, |nodes|)
      && n1 == (if q == Null then nodes else nodes[q := ReplaceChild(nodes[q], s, c)])
      && n2 == (if c == Null then n1 else n1[c := n1[c].(parent := q)])
      && n3 == n2[z := n2[z].(data := n2[s].data)]
      && r == (if q == Null then c else RootOf(t))
    ensures |n3| == |nodes| && WellFormed(Replace(t, s, u), n3, r)
    ensures Ids(Replace(t, s, u)) <= Ids(t) && |Ids(Replace(t, s, u))| == |Ids(t)| - 1
    ensures var A, K := Pre(t, z) + Order(Sub(t, z).left), Keys(t, nodes);
      && |A| < |K| && K[|A|] == nodes[z].data
      && Keys(Replace(t, s, u), n3) == Without(K, |A|)
  {
    SpliceUnlinks(t, nodes, n1, n2, n3, z, s, u);
    UnlinkKeeps(t, nodes, n3, z, s, u);
  }
}
