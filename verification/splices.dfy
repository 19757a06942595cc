/** The store-level steps of `rbtree_insert` and `rbtree_erase` that are not
    rotations or recolourings: linking a new node under its parent, and moving
    the successor of an erased node into the erased node's place.  Each lemma
    takes a store that holds a tree and states which tree the store holds after
    the statements of the code, written as a composition of the primitive
    writes. */
module Splices {
  import opened Trees
  import opened Paths
  import opened NodeStore

  /** A fresh node record, as `rbtree_insert` fills it in: red, both children
      the sentinel.  Its parent link is written before the node is linked. */
  function NewRec(key: int): NodeRec
  {
    NodeRec(Nil, Nil, Nil, Red, key)
  }

  /** Lines 82-91: hang node `n` under `parent`, on the side the key comparison
      picks, or make it the root when `parent` is the sentinel. */
  function LinkChild(a: RbTree, parent: nat, n: nat, key: int): (r: RbTree)
    requires parent < |a.nodes|
    ensures |r.nodes| == |a.nodes| && KeysKept(a, r)
  {
    if parent == Nil then KeysKeptSame(a, a.(root := n)); a.(root := n)
    else if a.nodes[parent].key < key then SetRight(a, parent, n)
    else SetLeft(a, parent, n)
  }

  /** Writing the focus's parent link with the value it must already hold (or,
      for an empty focus, the sentinel's parent link) keeps the tree. */
  lemma {:induction false} SetParentFocus(a: RbTree, p: Path, s: Tree)
    requires Holds(a, Plug(p, s))
    ensures RootId(s) < |a.nodes|
    ensures var r := SetParent(a, RootId(s), ParentId(p));
      && Holds(r, Plug(p, s)) && r.nodes[RootId(s)].parent == ParentId(p)
      && (s.Node? ==> r.nodes[Nil] == a.nodes[Nil])
      && r.nodes[Nil].color == a.nodes[Nil].color
  {
    FocusFacts(a, p, s);
    var r := SetParent(a, RootId(s), ParentId(p));
    if s.Node? {
      assert r.nodes == a.nodes;
    } else {
      ReprIds(a.nodes, Plug(p, s), Nil);
      ReprFrame(a.nodes, r.nodes, Plug(p, s), Nil);
    }
  }

  /** Lines 57-91: a fresh slot holding `key`, linked at the empty position the
      descent stopped at.  The descent went right exactly when the parent's key
      was smaller, which is the test the link uses, so the store holds the tree
      with a red leaf node in that position. */
  lemma {:induction false} InsertLink(a: RbTree, p: Path, key: int)
    requires Holds(a, Plug(p, Leaf))
    requires |p| > 0 ==> (p[0].RightOf? <==> p[0].key < key)
    ensures ParentId(p) < |a.nodes|
    ensures var n := |a.nodes|;
      var b := RbTree(a.nodes + [NewRec(key)], a.root);
      var r := LinkChild(SetParent(b, n, ParentId(p)), ParentId(p), n, key);
      && Holds(r, Plug(p, Node(Red, Leaf, n, key, Leaf)))
      && r.nodes[Nil] == a.nodes[Nil]
      && r.nodes[n] == NodeRec(Nil, Nil, ParentId(p), Red, key)
  {
    FocusFacts(a, p, Leaf);
    var n, par := |a.nodes|, ParentId(p);
    var b := RbTree(a.nodes + [NewRec(key)], a.root);
    var c := SetParent(b, n, par);
    var r := LinkChild(c, par, n, key);
    var s' := Node(Red, Leaf, n, key, Leaf);
    ReprIds(a.nodes, Plug(p, Leaf), Nil);
    PlugIds(p, Leaf);
    assert n !in PathIds(p);
    assert forall i | 0 <= i < n && i != par :: r.nodes[i] == a.nodes[i];
    assert r.nodes[n] == NodeRec(Nil, Nil, par, Red, key);
    if |p| > 0 {
      assert c.nodes[par] == a.nodes[par];
      assert r.nodes[par] == Linked(a.nodes[par], p[0], n);
    }
    RefocusPath(a, r, p, Leaf, s');
  }

  /** The records written by lines 347-352 when `z`, `y`, `z`'s right child
      `rz` and `z`'s parent `up` are different slots. */
  lemma {:induction false} GraftRecords(a: RbTree, z: nat, y: nat)
    requires 0 < z < |a.nodes| && 0 < y < |a.nodes| && a.nodes[z].right < |a.nodes| && a.nodes[z].parent < |a.nodes|
    requires var rz, up := a.nodes[z].right, a.nodes[z].parent;
      z != y && rz != y && up != y && rz != z && up != z && rz != up && rz != Nil
    ensures var rz, up := a.nodes[z].right, a.nodes[z].parent;
      var b1 := SetRight(a, y, a.nodes[z].right);
      var b2 := SetParent(b1, b1.nodes[y].right, y);
      b2.nodes[z].parent < |b2.nodes| &&
      var b3 := Transplant(b2, z, y);
      && b3.nodes[y] == a.nodes[y].(right := rz, parent := up)
      && b3.nodes[rz] == a.nodes[rz].(parent := y)
      && (up != Nil ==> b3.nodes[up] == Relinked(a.nodes[up], z, y))
      && b3.root == (if up == Nil then y else a.root)
      && b3.nodes[Nil] == a.nodes[Nil]
      && (forall i | 0 <= i < |a.nodes| && i != y && i != rz && i != up :: b3.nodes[i] == a.nodes[i])
  {
  }

  /** Lines 347-352, when the successor `y` sits deeper than `z`'s right child
      and has already been cut out of its place: `y` takes `z`'s right subtree
      and then `z`'s place.  `y` keeps its own colour and empty left link for
      now; `z`'s record and its left subtree are not written. */
  lemma {:induction false} Graft(a: RbTree, p: Path, zt: Tree, y: nat)
    requires Holds(a, Plug(p, zt)) && zt.Node? && zt.right.Node?
    requires 0 < y < |a.nodes| && y !in Ids(Plug(p, zt)) && a.nodes[y].left == Nil
    ensures zt.id < |a.nodes| && a.nodes[zt.id].right < |a.nodes|
    ensures var z := zt.id;
      var b1 := SetRight(a, y, a.nodes[z].right);
      var b2 := SetParent(b1, b1.nodes[y].right, y);
      b2.nodes[z].parent < |b2.nodes| &&
      var b3 := Transplant(b2, z, y);
      && Holds(b3, Plug(p, Node(a.nodes[y].color, Leaf, y, a.nodes[y].key, zt.right)))
      && b3.nodes[Nil] == a.nodes[Nil] && b3.nodes[z] == a.nodes[z]
      && Repr(b3.nodes, zt.left, z)
  {
    FocusFacts(a, p, zt);
    PlugIds(p, zt);
    ReprIds(a.nodes, zt, ParentId(p));
    ReprIds(a.nodes, Plug(p, zt), Nil);
    var z, R := zt.id, zt.right;
    assert Ids(zt) == Ids(zt.left) + {z} + Ids(R);
    assert R.id in Ids(R);
    assert ParentId(p) !in Ids(zt) by {
      if |p| > 0 { assert p[0].id in PathIds(p); }
    }
    GraftRecords(a, z, y);
    var b1 := SetRight(a, y, a.nodes[z].right);
    var b2 := SetParent(b1, b1.nodes[y].right, y);
    GraftHolds(a, Transplant(b2, z, y), p, zt, y);
  }

  /** `GraftRecords` read back as a tree. */
  lemma {:induction false} GraftHolds(a: RbTree, r: RbTree, p: Path, zt: Tree, y: nat)
    requires Holds(a, Plug(p, zt)) && zt.Node? && zt.right.Node?
    requires 0 < y < |a.nodes| && y !in Ids(Plug(p, zt)) && a.nodes[y].left == Nil
    requires |r.nodes| == |a.nodes|
    requires zt.id < |a.nodes| && zt.right.id < |a.nodes| && ParentId(p) < |a.nodes|
    requires var rz, up := zt.right.id, ParentId(p);
      && r.nodes[y] == a.nodes[y].(right := rz, parent := up)
      && r.nodes[rz] == a.nodes[rz].(parent := y)
      && (up != Nil ==> r.nodes[up] == Relinked(a.nodes[up], zt.id, y))
      && r.root == (if up == Nil then y else a.root)
      && r.nodes[Nil] == a.nodes[Nil]
      && (forall i | 0 <= i < |a.nodes| && i != y && i != rz && i != up :: r.nodes[i] == a.nodes[i])
    ensures Holds(r, Plug(p, Node(a.nodes[y].color, Leaf, y, a.nodes[y].key, zt.right)))
    ensures r.nodes[Nil] == a.nodes[Nil] && r.nodes[zt.id] == a.nodes[zt.id]
    ensures Repr(r.nodes, zt.left, zt.id)
  {
    FocusFacts(a, p, zt);
    PlugIds(p, zt);
    ReprIds(a.nodes, zt, ParentId(p));
    ReprIds(a.nodes, Plug(p, zt), Nil);
    var z, R, up := zt.id, zt.right, ParentId(p);
    assert Ids(zt) == Ids(zt.left) + {z} + Ids(R);
    assert R.id in Ids(R);
    assert up !in Ids(zt) by {
      if |p| > 0 { assert p[0].id in PathIds(p); }
    }
    assert y !in PathIds(p) && R.id !in PathIds(p);
    var s' := Node(a.nodes[y].color, Leaf, y, a.nodes[y].key, R);
    ReprReparent(a.nodes, r.nodes, R, z, y);
    ReprFrame(a.nodes, r.nodes, zt.left, z);
    PlugDistinct(p, s');
    if |p| > 0 {
      assert r.nodes[up] == Linked(a.nodes[up], p[0], y);
    }
    RefocusPath(a, r, p, zt, s');
  }

  /** Lines 353-355: `y`, whose left link is empty, takes `z`'s left subtree and
      `z`'s colour. */
  lemma {:induction false} AttachLeft(b: RbTree, p: Path, yt: Tree, L: Tree, z: nat)
    requires Holds(b, Plug(p, yt)) && yt.Node? && yt.left.Leaf?
    requires L.Node? && Repr(b.nodes, L, z) && Distinct(L) && Ids(L) !! Ids(Plug(p, yt))
    requires z < |b.nodes| && z != yt.id && z !in Ids(L) && b.nodes[z].left == L.id
    ensures yt.id < |b.nodes| && L.id < |b.nodes|
    ensures var y := yt.id;
      var c1 := SetLeft(b, y, b.nodes[z].left);
      var c2 := SetParent(c1, c1.nodes[y].left, y);
      var c3 := SetColor(c2, y, c2.nodes[z].color);
      && Holds(c3, Plug(p, Node(b.nodes[z].color, L, y, yt.key, yt.right)))
      && c3.nodes[Nil] == b.nodes[Nil]
  {
    FocusFacts(a := b, p := p, s := yt);
    PlugIds(p, yt);
    ReprIds(b.nodes, L, z);
    var y, X := yt.id, yt.right;
    assert L.id in Ids(L) && y in Ids(yt);
    var c1 := SetLeft(b, y, b.nodes[z].left);
    var c2 := SetParent(c1, c1.nodes[y].left, y);
    var c3 := SetColor(c2, y, c2.nodes[z].color);
    var s' := Node(b.nodes[z].color, L, y, yt.key, X);
    assert c3.nodes[y] == NodeRec(L.id, RootId(X), ParentId(p), s'.color, s'.key);
    assert c3.nodes[L.id] == b.nodes[L.id].(parent := y);
    assert forall i | 0 <= i < |b.nodes| && i != y && i != L.id :: c3.nodes[i] == b.nodes[i];
    ReprReparent(b.nodes, c3.nodes, L, z, y);
    assert Ids(yt) == {y} + Ids(X);
    ReprIds(b.nodes, X, y);
    assert y !in Ids(X) && L.id !in Ids(X);
    ReprFrame(b.nodes, c3.nodes, X, y);
    assert Ids(s') == Ids(L) + Ids(yt);
    ReprIds(b.nodes, Plug(p, yt), Nil);
    assert y !in PathIds(p) && L.id !in PathIds(p);
    if |p| > 0 {
      assert p[0].id in PathIds(p);
      assert c3.nodes[p[0].id] == Linked(b.nodes[p[0].id], p[0], y);
    }
    RefocusPath(b, c3, p, yt, s');
  }
}
