/** The pointer structure of `src/rbtree.c`, as a store of node records.

    A `node_t *` is a slot number; slot 0 is the tree's shared sentinel `nil`.
    `Repr` relates the records to a value `Tree`: every node of the tree is the
    record in its slot, with `left`/`right` naming the children's slots and
    `parent` naming the slot of the node above (the sentinel at the root).  The
    sentinel's own record is constrained only where the code reads it: its
    colour is black, and the deletion fix-up reads its `parent`. */
module NodeStore {
  import opened Trees
  import opened Paths

  datatype NodeRec = NodeRec(left: nat, right: nat, parent: nat, color: Color, key: int)

  /** An `rbtree`: the slots and the `root` link. */
  datatype RbTree = RbTree(nodes: seq<NodeRec>, root: nat)

  const Nil: nat := 0

  /** The records of `t`'s slots are `t`'s nodes; `t`'s root points up to `parent`. */
  ghost predicate Repr(nodes: seq<NodeRec>, t: Tree, parent: nat)
  {
    match t
    case Leaf => true
    case Node(c, l, i, k, r) =>
      && 0 < i < |nodes|
      && nodes[i] == NodeRec(RootId(l), RootId(r), parent, c, k)
      && Repr(nodes, l, i) && Repr(nodes, r, i)
  }

  /** The store `a` is a well-formed `rbtree` whose reachable part is `t`. */
  ghost predicate Holds(a: RbTree, t: Tree)
  {
    && 0 < |a.nodes| && a.nodes[Nil].color == Black
    && Repr(a.nodes, t, Nil) && Distinct(t) && a.root == RootId(t)
  }

  /** The parent record after its child link on the focus's side is set to `c`. */
  function Linked(rec: NodeRec, f: Frame, c: nat): NodeRec
  {
    if f.LeftOf? then rec.(left := c) else rec.(right := c)
  }

  /** A parent's record after its link to `child` is redirected to `v`: the
      left link if it held `child`, the right link otherwise. */
  function Relinked(rec: NodeRec, child: nat, v: nat): NodeRec
  {
    if rec.left == child then rec.(left := v) else rec.(right := v)
  }

  /** The first `n` slots of `a` and `r` hold the same keys. */
  predicate KeysAgree(a: seq<NodeRec>, r: seq<NodeRec>, n: nat)
    requires n <= |a| && n <= |r|
  {
    n == 0 || (r[n - 1].key == a[n - 1].key && KeysAgree(a, r, n - 1))
  }

  /** Every slot of `a` is still a slot of `r` and holds the same key: the code
      moves nodes between positions and recolours them, but never writes a
      key, so a node handed out by an insertion keeps its key. */
  predicate KeysKept(a: RbTree, r: RbTree)
  {
    |a.nodes| <= |r.nodes| && KeysAgree(a.nodes, r.nodes, |a.nodes|)
  }

  lemma {:induction false} KeysAgreeAt(a: seq<NodeRec>, r: seq<NodeRec>, n: nat, i: nat)
    requires n <= |a| && n <= |r| && KeysAgree(a, r, n) && i < n
    ensures r[i].key == a[i].key
    decreases n
  {
    if i < n - 1 {
      KeysAgreeAt(a, r, n - 1, i);
    }
  }

  /** Slot-wise equal keys, stated with a quantifier, read as `KeysAgree`. */
  lemma {:induction false} KeysAgreeFrom(a: seq<NodeRec>, r: seq<NodeRec>, n: nat)
    requires n <= |a| && n <= |r| && forall i | 0 <= i < n :: r[i].key == a[i].key
    ensures KeysAgree(a, r, n)
    decreases n
  {
    if n > 0 {
      KeysAgreeFrom(a, r, n - 1);
    }
  }

  lemma {:induction false} KeysAgreeTrans(a: seq<NodeRec>, b: seq<NodeRec>, c: seq<NodeRec>, n: nat)
    requires n <= |a| && n <= |b| && n <= |c| && KeysAgree(a, b, n) && KeysAgree(b, c, n)
    ensures KeysAgree(a, c, n)
    decreases n
  {
    if n > 0 {
      KeysAgreeTrans(a, b, c, n - 1);
    }
  }

  /** A slot of the old store holds the same key in the new one. */
  lemma {:induction false} KeysKeptAt(a: RbTree, r: RbTree, i: nat)
    requires KeysKept(a, r) && i < |a.nodes|
    ensures i < |r.nodes| && r.nodes[i].key == a.nodes[i].key
  {
    KeysAgreeAt(a.nodes, r.nodes, |a.nodes|, i);
  }

  lemma {:induction false} KeysKeptTrans(a: RbTree, b: RbTree, c: RbTree)
    requires KeysKept(a, b) && KeysKept(b, c)
    ensures KeysKept(a, c)
  {
    KeysAgreeShrink(b.nodes, c.nodes, |b.nodes|, |a.nodes|);
    KeysAgreeTrans(a.nodes, b.nodes, c.nodes, |a.nodes|);
  }

  lemma {:induction false} KeysAgreeShrink(a: seq<NodeRec>, r: seq<NodeRec>, n: nat, m: nat)
    requires n <= |a| && n <= |r| && KeysAgree(a, r, n) && m <= n
    ensures KeysAgree(a, r, m)
    decreases n
  {
    if m < n {
      KeysAgreeShrink(a, r, n - 1, m);
    }
  }

  /** A store whose records are unchanged keeps every key. */
  lemma {:induction false} KeysKeptSame(a: RbTree, r: RbTree)
    requires r.nodes == a.nodes
    ensures KeysKept(a, r)
  {
    KeysAgreeFrom(a.nodes, r.nodes, |a.nodes|);
  }

  /** Writing a record that keeps its slot's key keeps every key. */
  lemma {:induction false} KeysKeptWrite(a: RbTree, i: nat, rec: NodeRec, root: nat)
    requires i < |a.nodes| && rec.key == a.nodes[i].key
    ensures KeysKept(a, RbTree(a.nodes[i := rec], root))
  {
    KeysAgreeFrom(a.nodes, a.nodes[i := rec], |a.nodes|);
  }

  function SetLeft(a: RbTree, i: nat, v: nat): (r: RbTree)
    requires i < |a.nodes|
    ensures |r.nodes| == |a.nodes| && r.root == a.root && KeysKept(a, r)
  {
    KeysKeptWrite(a, i, a.nodes[i].(left := v), a.root);
    a.(nodes := a.nodes[i := a.nodes[i].(left := v)])
  }

  function SetRight(a: RbTree, i: nat, v: nat): (r: RbTree)
    requires i < |a.nodes|
    ensures |r.nodes| == |a.nodes| && r.root == a.root && KeysKept(a, r)
  {
    KeysKeptWrite(a, i, a.nodes[i].(right := v), a.root);
    a.(nodes := a.nodes[i := a.nodes[i].(right := v)])
  }

  function SetParent(a: RbTree, i: nat, v: nat): (r: RbTree)
    requires i < |a.nodes|
    ensures |r.nodes| == |a.nodes| && r.root == a.root && KeysKept(a, r)
  {
    KeysKeptWrite(a, i, a.nodes[i].(parent := v), a.root);
    a.(nodes := a.nodes[i := a.nodes[i].(parent := v)])
  }

  function SetColor(a: RbTree, i: nat, c: Color): (r: RbTree)
    requires i < |a.nodes|
    ensures |r.nodes| == |a.nodes| && r.root == a.root && KeysKept(a, r)
  {
    KeysKeptWrite(a, i, a.nodes[i].(color := c), a.root);
    a.(nodes := a.nodes[i := a.nodes[i].(color := c)])
  }

  /** `left_rotate(t, x)`, statement by statement.  It needs `x` and its right
      child `y` to be real nodes, and reads `y`'s left child and `x`'s parent. */
  function LeftRotate(a: RbTree, x: nat): (r: RbTree)
    requires CanLeftRotate(a, x)
    ensures |r.nodes| == |a.nodes|
    ensures r.nodes[Nil] == a.nodes[Nil]
    ensures var y := a.nodes[x].right;
      forall i | 0 <= i < |a.nodes| && i != x && i != y && i != a.nodes[y].left && i != a.nodes[x].parent ::
        r.nodes[i] == a.nodes[i]
  {
    var n0 := a.nodes;
    var y := n0[x].right;
    var n1 := n0[x := n0[x].(right := n0[y].left)];
    var n2 := if n1[y].left != Nil then n1[n1[y].left := n1[n1[y].left].(parent := x)] else n1;
    var n3 := n2[y := n2[y].(parent := n2[x].parent)];
    var xp := n3[x].parent;
    var n4 := if xp == Nil then n3 else n3[xp := Relinked(n3[xp], x, y)];
    var n5 := n4[y := n4[y].(left := x)];
    var n6 := n5[x := n5[x].(parent := y)];
    RbTree(n6, if xp == Nil then y else a.root)
  }

  /** `right_rotate(t, x)`, the mirror image of `LeftRotate`. */
  function RightRotate(a: RbTree, x: nat): (r: RbTree)
    requires CanRightRotate(a, x)
    ensures |r.nodes| == |a.nodes|
    ensures r.nodes[Nil] == a.nodes[Nil]
    ensures var y := a.nodes[x].left;
      forall i | 0 <= i < |a.nodes| && i != x && i != y && i != a.nodes[y].right && i != a.nodes[x].parent ::
        r.nodes[i] == a.nodes[i]
  {
    var n0 := a.nodes;
    var y := n0[x].left;
    var n1 := n0[x := n0[x].(left := n0[y].right)];
    var n2 := if n1[y].right != Nil then n1[n1[y].right := n1[n1[y].right].(parent := x)] else n1;
    var n3 := n2[y := n2[y].(parent := n2[x].parent)];
    var xp := n3[x].parent;
    var n4 := if xp == Nil then n3 else n3[xp := Relinked(n3[xp], x, y)];
    var n5 := n4[y := n4[y].(right := x)];
    var n6 := n5[x := n5[x].(parent := y)];
    RbTree(n6, if xp == Nil then y else a.root)
  }

  /** `rbtree_transplant(t, u, v)`: `v` takes `u`'s place under `u`'s parent
      (or becomes the root), and `v`'s parent link is set even when `v` is the
      sentinel.  Nothing else is written: no colour, and no child link of `u`
      or `v`. */
  function Transplant(a: RbTree, u: nat, v: nat): (r: RbTree)
    requires u < |a.nodes| && v < |a.nodes| && a.nodes[u].parent < |a.nodes|
    ensures |r.nodes| == |a.nodes|
    ensures var up := a.nodes[u].parent;
      && (up == Nil ==> r.root == v)
      && (up != Nil ==> r.root == a.root)
      && r.nodes[v].parent == up
      && (up != Nil && up != v ==> r.nodes[up] == Relinked(a.nodes[up], u, v))
      && (forall i | 0 <= i < |a.nodes| && i != v && i != up :: r.nodes[i] == a.nodes[i])
      && (forall i | 0 <= i < |a.nodes| && i != up ::
            r.nodes[i].left == a.nodes[i].left && r.nodes[i].right == a.nodes[i].right)
      && (forall i | 0 <= i < |a.nodes| ::
            r.nodes[i].color == a.nodes[i].color && r.nodes[i].key == a.nodes[i].key)
      && KeysKept(a, r)
  {
    var up := a.nodes[u].parent;
    var a1 :=
      if up == Nil then a.(root := v)
      else if u == a.nodes[up].left then SetLeft(a, up, v)
      else SetRight(a, up, v);
    var r := SetParent(a1, v, a1.nodes[u].parent);
    KeysAgreeFrom(a.nodes, r.nodes, |a.nodes|);
    r
  }

  // ---------------------------------------------------------------------------
  // Facts about Repr

  lemma {:induction false} ReprIds(nodes: seq<NodeRec>, t: Tree, par: nat)
    requires Repr(nodes, t, par)
    ensures forall i | i in Ids(t) :: 0 < i < |nodes|
    ensures t.Node? ==> t.id < |nodes|
  {
    match t
    case Leaf =>
    case Node(_, l, i, _, r) =>
      ReprIds(nodes, l, i);
      ReprIds(nodes, r, i);
  }

  /** Writes outside a subtree's slots do not disturb it. */
  lemma {:induction false} ReprFrame(nodes: seq<NodeRec>, nodes': seq<NodeRec>, t: Tree, par: nat)
    requires Repr(nodes, t, par)
    requires forall i | i in Ids(t) :: i < |nodes| && i < |nodes'| && nodes'[i] == nodes[i]
    ensures Repr(nodes', t, par)
  {
    match t
    case Leaf =>
    case Node(_, l, i, _, r) =>
      ReprFrame(nodes, nodes', l, i);
      ReprFrame(nodes, nodes', r, i);
  }

  /** A subtree whose root record only had its parent link rewritten hangs under the new parent. */
  lemma {:induction false} ReprReparent(nodes: seq<NodeRec>, nodes': seq<NodeRec>, t: Tree, par: nat, par': nat)
    requires Repr(nodes, t, par) && Distinct(t)
    requires t.Node? ==> t.id < |nodes| && t.id < |nodes'| && nodes'[t.id] == nodes[t.id].(parent := par')
    requires forall i | i in Ids(t) && i != RootId(t) :: i < |nodes| && i < |nodes'| && nodes'[i] == nodes[i]
    ensures Repr(nodes', t, par')
  {
    if t.Node? {
      ReprFrame(nodes, nodes', t.left, t.id);
      ReprFrame(nodes, nodes', t.right, t.id);
    }
  }

  /** The focused subtree hangs under the slot of its nearest frame. */
  lemma {:induction false} ReprFocus(nodes: seq<NodeRec>, p: Path, s: Tree)
    requires Repr(nodes, Plug(p, s), Nil)
    ensures Repr(nodes, s, ParentId(p))
    ensures |p| > 0 ==> Repr(nodes, Attach(p[0], s), ParentId(p[1..]))
    decreases |p|
  {
    if |p| > 0 {
      ReprFocus(nodes, p[1..], Attach(p[0], s));
    }
  }

  /** Replacing the focused subtree by one with the same root slot, without
      touching the path's slots, keeps the whole tree represented. */
  lemma {:induction false} ReplaceFocus(nodes: seq<NodeRec>, nodes': seq<NodeRec>, p: Path, s: Tree, s': Tree)
    requires Repr(nodes, Plug(p, s), Nil)
    requires Repr(nodes', s', ParentId(p))
    requires |p| > 0 ==> RootId(s') == RootId(s)
    requires forall i | i in PathIds(p) :: i < |nodes| && i < |nodes'| && nodes'[i] == nodes[i]
    ensures Repr(nodes', Plug(p, s'), Nil)
    decreases |p|
  {
    if |p| > 0 {
      ReprFocus(nodes, p[1..], Attach(p[0], s));
      ReprFrame(nodes, nodes', p[0].sibling, p[0].id);
      ReplaceFocus(nodes, nodes', p[1..], Attach(p[0], s), Attach(p[0], s'));
    }
  }

  /** Replacing the focused subtree and rewriting the parent's child link to its new root. */
  lemma {:induction false} Relink(nodes: seq<NodeRec>, nodes': seq<NodeRec>, p: Path, s: Tree, s': Tree)
    requires |p| > 0 && Repr(nodes, Plug(p, s), Nil)
    requires Repr(nodes', s', p[0].id)
    requires p[0].id < |nodes| && p[0].id < |nodes'|
    requires nodes'[p[0].id] == Linked(nodes[p[0].id], p[0], RootId(s'))
    requires forall i | i in Ids(p[0].sibling) :: i < |nodes| && i < |nodes'| && nodes'[i] == nodes[i]
    requires forall i | i in PathIds(p[1..]) :: i < |nodes| && i < |nodes'| && nodes'[i] == nodes[i]
    ensures Repr(nodes', Plug(p, s'), Nil)
  {
    var f := p[0];
    var up := ParentId(p[1..]);
    ReprFocus(nodes, p[1..], Attach(f, s));
    ReprAttach(nodes, nodes', f, s, s', up);
    ReplaceFocus(nodes, nodes', p[1..], Attach(f, s), Attach(f, s'));
  }

  /** One level of `Relink`: the parent's record with the rewritten child link
      represents the parent over the new child. */
  lemma {:induction false} ReprAttach(nodes: seq<NodeRec>, nodes': seq<NodeRec>, f: Frame, s: Tree, s': Tree, up: nat)
    requires Repr(nodes, Attach(f, s), up) && Repr(nodes', s', f.id)
    requires f.id < |nodes'| && nodes'[f.id] == Linked(nodes[f.id], f, RootId(s'))
    requires forall i | i in Ids(f.sibling) :: i < |nodes| && i < |nodes'| && nodes'[i] == nodes[i]
    ensures Repr(nodes', Attach(f, s'), up)
  {
    ReprFrame(nodes, nodes', f.sibling, f.id);
  }

  /** Facts about the focus and its parent's record that the code reads. */
  lemma {:induction false} FocusFacts(a: RbTree, p: Path, s: Tree)
    requires Holds(a, Plug(p, s))
    ensures Repr(a.nodes, s, ParentId(p)) && Distinct(s)
    ensures Ids(s) !! PathIds(p) && PathDistinct(p)
    ensures RootId(s) < |a.nodes| && ParentId(p) < |a.nodes|
    ensures s.Node? ==> a.nodes[s.id].parent == ParentId(p) && s.id != Nil
    ensures |p| > 0 ==> a.nodes[p[0].id] == NodeRec(
      RootId(Attach(p[0], s).left), RootId(Attach(p[0], s).right), ParentId(p[1..]), p[0].color, p[0].key)
    ensures |p| > 0 && (s.Node? || p[0].sibling.Node?) ==> (RootId(s) == a.nodes[p[0].id].left <==> p[0].LeftOf?)
    ensures |p| > 0 ==> Repr(a.nodes, p[0].sibling, p[0].id)
    ensures |p| > 0 ==> Linked(a.nodes[p[0].id], p[0], RootId(s)) == a.nodes[p[0].id]
    ensures |p| == 0 ==> a.root == RootId(s)
    ensures |p| > 0 ==> a.root == p[|p| - 1].id && p[0].id != Nil
  {
    ReprFocus(a.nodes, p, s);
    PlugDistinct(p, s);
    PlugRoot(p, s);
    ReprIds(a.nodes, s, ParentId(p));
    if |p| > 0 {
      ReprIds(a.nodes, Attach(p[0], s), ParentId(p[1..]));
      assert Ids(Attach(p[0], s)) == Ids(s) + {p[0].id} + Ids(p[0].sibling);
      if p[0].sibling.Node? {
        assert p[0].sibling.id in Ids(p[0].sibling);
      }
      if s.Node? {
        assert s.id in Ids(s);
      }
    }
  }

  /** Replacing the focus by a subtree over the same or fewer slots keeps the slots distinct. */
  /** The record of the focused node: its child links name the roots of its
      subtrees, which are real slots when present. */
  lemma {:induction false} FocusRecord(a: RbTree, p: Path, s: Tree)
    requires Holds(a, Plug(p, s)) && s.Node?
    ensures s.id < |a.nodes|
    ensures a.nodes[s.id] == NodeRec(RootId(s.left), RootId(s.right), ParentId(p), s.color, s.key)
    ensures s.left.Node? ==> s.left.id != Nil
    ensures s.right.Node? ==> s.right.id != Nil
  {
    FocusFacts(a, p, s);
  }

  lemma {:induction false} DistinctReplace(p: Path, s: Tree, s': Tree)
    requires Distinct(Plug(p, s)) && Distinct(s') && Ids(s') <= Ids(s)
    ensures Distinct(Plug(p, s'))
    ensures Ids(Plug(p, s')) == Ids(Plug(p, s)) - (Ids(s) - Ids(s'))
  {
    PlugDistinct(p, s);
    PlugDistinct(p, s');
    PlugIds(p, s);
    PlugIds(p, s');
  }

  // ---------------------------------------------------------------------------
  // The primitives refine their value-level counterparts

  /** The general step: a write that left the path's slots alone except for
      the parent's link to the focus leaves a store that holds the tree with
      the new focus.  The store may have grown. */
  lemma {:induction false} RefocusPath(a: RbTree, r: RbTree, p: Path, s: Tree, s': Tree)
    requires Holds(a, Plug(p, s))
    requires Repr(r.nodes, s', ParentId(p)) && Distinct(s') && Ids(s') !! PathIds(p)
    requires |a.nodes| <= |r.nodes| && r.nodes[Nil].color == Black
    requires |p| == 0 ==> r.root == RootId(s')
    requires |p| > 0 ==>
      && r.root == a.root && p[0].id < |a.nodes|
      && r.nodes[p[0].id] == Linked(a.nodes[p[0].id], p[0], RootId(s'))
    requires forall i | i in PathIds(p) && i != ParentId(p) :: i < |a.nodes| && r.nodes[i] == a.nodes[i]
    ensures Holds(r, Plug(p, s'))
  {
    FocusFacts(a, p, s);
    PlugDistinct(p, s');
    if |p| > 0 {
      assert PathIds(p) == {p[0].id} + Ids(p[0].sibling) + PathIds(p[1..]);
      Relink(a.nodes, r.nodes, p, s, s');
      PlugRoot(p, s);
      PlugRoot(p, s');
    }
  }

  /** `RefocusPath` for a write confined to the focus's own slots, the
      sentinel and the parent's link. */
  lemma {:induction false} Refocus(a: RbTree, r: RbTree, p: Path, s: Tree, s': Tree)
    requires Holds(a, Plug(p, s))
    requires Repr(r.nodes, s', ParentId(p)) && Distinct(s') && Ids(s') <= Ids(s)
    requires |r.nodes| == |a.nodes| && r.nodes[Nil].color == Black
    requires |p| == 0 ==> r.root == RootId(s')
    requires |p| > 0 ==>
      && r.root == a.root && p[0].id < |a.nodes|
      && r.nodes[p[0].id] == Linked(a.nodes[p[0].id], p[0], RootId(s'))
    requires forall i | 0 < i < |a.nodes| && i !in Ids(s) && i != ParentId(p) :: r.nodes[i] == a.nodes[i]
    ensures Holds(r, Plug(p, s'))
  {
    FocusFacts(a, p, s);
    ReprIds(a.nodes, Plug(p, s), Nil);
    PlugIds(p, s);
    RefocusPath(a, r, p, s, s');
  }

  /** Recolouring the focused node. */
  lemma {:induction false} SetColorFocus(a: RbTree, p: Path, s: Tree, c: Color)
    requires Holds(a, Plug(p, s)) && s.Node?
    ensures s.id < |a.nodes|
    ensures Holds(SetColor(a, s.id, c), Plug(p, s.(color := c)))
    ensures SetColor(a, s.id, c).nodes[Nil] == a.nodes[Nil]
  {
    FocusFacts(a, p, s);
    var r := SetColor(a, s.id, c);
    var s' := s.(color := c);
    ReprIds(a.nodes, s, ParentId(p));
    ReprFrame(a.nodes, r.nodes, s.left, s.id);
    ReprFrame(a.nodes, r.nodes, s.right, s.id);
    assert Repr(r.nodes, s', ParentId(p));
    Refocus(a, r, p, s, s');
  }

  /** What `left_rotate` needs to read: `x` and its right child are real nodes. */
  predicate CanLeftRotate(a: RbTree, x: nat)
  {
    && 0 < x < |a.nodes| && Nil < a.nodes[x].right < |a.nodes|
    && a.nodes[a.nodes[x].right].left < |a.nodes| && a.nodes[x].parent < |a.nodes|
  }

  /** What `right_rotate` needs to read: `x` and its left child are real nodes. */
  predicate CanRightRotate(a: RbTree, x: nat)
  {
    && 0 < x < |a.nodes| && Nil < a.nodes[x].left < |a.nodes|
    && a.nodes[a.nodes[x].left].right < |a.nodes| && a.nodes[x].parent < |a.nodes|
  }

  /** The effect of `left_rotate(t, x)` when `x`, its right child `y`, `y`'s
      left child `b` and `x`'s parent are different slots: `y` takes `x`'s
      place under the parent, `x` becomes `y`'s left child, `b` moves under
      `x`, and no other slot is written. */
  ghost predicate LeftRotated(a: RbTree, x: nat, r: RbTree)
    requires CanLeftRotate(a, x)
  {
    var y := a.nodes[x].right; var b := a.nodes[y].left; var xp := a.nodes[x].parent;
    && |r.nodes| == |a.nodes|
    && r.nodes[x] == a.nodes[x].(right := b, parent := y)
    && r.nodes[y] == a.nodes[y].(left := x, parent := xp)
    && (b != Nil ==> r.nodes[b] == a.nodes[b].(parent := x))
    && (xp != Nil ==> r.nodes[xp] == Relinked(a.nodes[xp], x, y))
    && r.root == (if xp == Nil then y else a.root)
    && r.nodes[Nil] == a.nodes[Nil]
    && (forall i | 0 <= i < |a.nodes| && i != x && i != y && i != b && i != xp :: r.nodes[i] == a.nodes[i])
  }

  /** The mirror image of `LeftRotated`. */
  ghost predicate RightRotated(a: RbTree, x: nat, r: RbTree)
    requires CanRightRotate(a, x)
  {
    var y := a.nodes[x].left; var b := a.nodes[y].right; var xp := a.nodes[x].parent;
    && |r.nodes| == |a.nodes|
    && r.nodes[x] == a.nodes[x].(left := b, parent := y)
    && r.nodes[y] == a.nodes[y].(right := x, parent := xp)
    && (b != Nil ==> r.nodes[b] == a.nodes[b].(parent := x))
    && (xp != Nil ==> r.nodes[xp] == Relinked(a.nodes[xp], x, y))
    && r.root == (if xp == Nil then y else a.root)
    && r.nodes[Nil] == a.nodes[Nil]
    && (forall i | 0 <= i < |a.nodes| && i != x && i != y && i != b && i != xp :: r.nodes[i] == a.nodes[i])
  }

  /** `LeftRotate` does what `LeftRotated` describes. */
  lemma {:induction false} LeftRotateRecords(a: RbTree, x: nat)
    requires CanLeftRotate(a, x)
    requires var y := a.nodes[x].right; var b := a.nodes[y].left; var xp := a.nodes[x].parent;
      && x != y && b != x && b != y && xp != x && xp != y && (b != Nil ==> b != xp)
    ensures LeftRotated(a, x, LeftRotate(a, x))
  {
  }

  /** `RightRotate` does what `RightRotated` describes. */
  lemma {:induction false} RightRotateRecords(a: RbTree, x: nat)
    requires CanRightRotate(a, x)
    requires var y := a.nodes[x].left; var b := a.nodes[y].right; var xp := a.nodes[x].parent;
      && x != y && b != x && b != y && xp != x && xp != y && (b != Nil ==> b != xp)
    ensures RightRotated(a, x, RightRotate(a, x))
  {
  }

  /** Rotations move links, never keys or colours, in any slot. */
  lemma {:induction false} LeftRotateFields(a: RbTree, x: nat, i: nat)
    requires CanLeftRotate(a, x) && i < |a.nodes|
    ensures LeftRotate(a, x).nodes[i].key == a.nodes[i].key
    ensures LeftRotate(a, x).nodes[i].color == a.nodes[i].color
  {
  }

  lemma {:induction false} RightRotateFields(a: RbTree, x: nat, i: nat)
    requires CanRightRotate(a, x) && i < |a.nodes|
    ensures RightRotate(a, x).nodes[i].key == a.nodes[i].key
    ensures RightRotate(a, x).nodes[i].color == a.nodes[i].color
  {
  }

  /** A left rotation keeps every slot's key. */
  lemma {:induction false} LeftRotateKeys(a: RbTree, x: nat)
    requires CanLeftRotate(a, x)
    ensures KeysKept(a, LeftRotate(a, x))
  {
    forall i | 0 <= i < |a.nodes| ensures LeftRotate(a, x).nodes[i].key == a.nodes[i].key {
      LeftRotateFields(a, x, i);
    }
    KeysAgreeFrom(a.nodes, LeftRotate(a, x).nodes, |a.nodes|);
  }

  /** A right rotation keeps every slot's key. */
  lemma {:induction false} RightRotateKeys(a: RbTree, x: nat)
    requires CanRightRotate(a, x)
    ensures KeysKept(a, RightRotate(a, x))
  {
    forall i | 0 <= i < |a.nodes| ensures RightRotate(a, x).nodes[i].key == a.nodes[i].key {
      RightRotateFields(a, x, i);
    }
    KeysAgreeFrom(a.nodes, RightRotate(a, x).nodes, |a.nodes|);
  }

  /** A left rotation at the root of a represented subtree: the records now
      represent `RotateLeft(s)` under the same parent, whose link to the
      subtree is redirected, and no other real slot is written. */
  lemma {:induction false} LeftRotateLocal(a: RbTree, r: RbTree, s: Tree, par: nat)
    requires Repr(a.nodes, s, par) && Distinct(s) && s.Node? && s.right.Node?
    requires par !in Ids(s) && par < |a.nodes|
    ensures CanLeftRotate(a, s.id)
    ensures LeftRotated(a, s.id, r) ==>
      && Repr(r.nodes, RotateLeft(s), par)
      && r.root == (if par == Nil then s.right.id else a.root)
      && (par != Nil ==> r.nodes[par] == Relinked(a.nodes[par], s.id, s.right.id))
      && (forall i | 0 <= i < |a.nodes| && i !in Ids(s) && i != par :: r.nodes[i] == a.nodes[i])
  {
    var x, y, B := s.id, s.right.id, s.right.left;
    ReprIds(a.nodes, s, par);
    assert Ids(s) == Ids(s.left) + {x} + Ids(B) + {y} + Ids(s.right.right);
    assert y in Ids(s);
    assert B.Node? ==> B.id in Ids(B);
    if LeftRotated(a, x, r) {
      ReprFrame(a.nodes, r.nodes, s.left, x);
      ReprFrame(a.nodes, r.nodes, s.right.right, y);
      ReprReparent(a.nodes, r.nodes, B, y, x);
    }
  }

  /** The mirror image of `LeftRotateLocal`. */
  lemma {:induction false} RightRotateLocal(a: RbTree, r: RbTree, s: Tree, par: nat)
    requires Repr(a.nodes, s, par) && Distinct(s) && s.Node? && s.left.Node?
    requires par !in Ids(s) && par < |a.nodes|
    ensures CanRightRotate(a, s.id)
    ensures RightRotated(a, s.id, r) ==>
      && Repr(r.nodes, RotateRight(s), par)
      && r.root == (if par == Nil then s.left.id else a.root)
      && (par != Nil ==> r.nodes[par] == Relinked(a.nodes[par], s.id, s.left.id))
      && (forall i | 0 <= i < |a.nodes| && i !in Ids(s) && i != par :: r.nodes[i] == a.nodes[i])
  {
    var x, y, B := s.id, s.left.id, s.left.right;
    ReprIds(a.nodes, s, par);
    assert Ids(s) == Ids(s.left.left) + {y} + Ids(B) + {x} + Ids(s.right);
    assert y in Ids(s);
    assert B.Node? ==> B.id in Ids(B);
    if RightRotated(a, x, r) {
      ReprFrame(a.nodes, r.nodes, s.right, x);
      ReprFrame(a.nodes, r.nodes, s.left.left, y);
      ReprReparent(a.nodes, r.nodes, B, y, x);
    }
  }

  /** `left_rotate` on the focused node performs `RotateLeft` on the value. */
  lemma {:induction false} LeftRotateFocus(a: RbTree, p: Path, s: Tree)
    requires Holds(a, Plug(p, s)) && s.Node? && s.right.Node?
    ensures CanLeftRotate(a, s.id)
    ensures Holds(LeftRotate(a, s.id), Plug(p, RotateLeft(s)))
    ensures LeftRotate(a, s.id).nodes[Nil] == a.nodes[Nil]
  {
    FocusFacts(a, p, s);
    PlugIds(p, s);
    ReprIds(a.nodes, s, ParentId(p));
    assert ParentId(p) !in Ids(s) by {
      if |p| > 0 { assert p[0].id in PathIds(p); }
    }
    var r := LeftRotate(a, s.id);
    LeftRotateLocal(a, r, s, ParentId(p));
    LeftRotateRecords(a, s.id);
    Refocus(a, r, p, s, RotateLeft(s));
  }

  /** `right_rotate` on the focused node performs `RotateRight` on the value. */
  lemma {:induction false} RightRotateFocus(a: RbTree, p: Path, s: Tree)
    requires Holds(a, Plug(p, s)) && s.Node? && s.left.Node?
    ensures CanRightRotate(a, s.id)
    ensures Holds(RightRotate(a, s.id), Plug(p, RotateRight(s)))
    ensures RightRotate(a, s.id).nodes[Nil] == a.nodes[Nil]
  {
    FocusFacts(a, p, s);
    PlugIds(p, s);
    ReprIds(a.nodes, s, ParentId(p));
    assert ParentId(p) !in Ids(s) by {
      if |p| > 0 { assert p[0].id in PathIds(p); }
    }
    var r := RightRotate(a, s.id);
    RightRotateLocal(a, r, s, ParentId(p));
    RightRotateRecords(a, s.id);
    Refocus(a, r, p, s, RotateRight(s));
  }

  /** `rbtree_transplant(t, u, v)` where `u` is the focused node and `v` one of
      its children: the store holds the tree with `v`'s subtree in `u`'s place,
      and `v`'s parent link, the sentinel's included, names `u`'s parent. */
  lemma {:induction false} TransplantFocus(a: RbTree, p: Path, s: Tree, s': Tree)
    requires Holds(a, Plug(p, s)) && s.Node? && (s' == s.left || s' == s.right)
    ensures s.id < |a.nodes| && RootId(s') < |a.nodes| && a.nodes[s.id].parent < |a.nodes|
    ensures var r := Transplant(a, s.id, RootId(s'));
      && Holds(r, Plug(p, s'))
      && r.nodes[RootId(s')].parent == ParentId(p)
      && (s'.Node? ==> r.nodes[Nil] == a.nodes[Nil])
  {
    FocusFacts(a, p, s);
    PlugIds(p, s);
    ReprIds(a.nodes, s, ParentId(p));
    var u, v, up := s.id, RootId(s'), ParentId(p);
    assert up !in Ids(s) by {
      if |p| > 0 { assert p[0].id in PathIds(p); }
    }
    assert Repr(a.nodes, s', u);
    ReprIds(a.nodes, s', u);
    assert s'.Node? ==> v in Ids(s') && v != up;
    var r := Transplant(a, u, v);
    if s'.Node? {
      ReprReparent(a.nodes, r.nodes, s', u, up);
    }
    assert Distinct(s') && Ids(s') <= Ids(s);
    Refocus(a, r, p, s, s');
  }
}
