/** The operations of `src/rbtree.c`, statement by statement, on the node store.

    Every method takes the store together with a ghost `Tree` that the store
    holds, follows the pointer reads and writes of the C function, and states
    its result in terms of that tree: which node it finds, which keys it
    writes out, and which red-black tree the store holds afterwards.  A null
    pointer result is `None`; the sentinel is slot `Nil`. */
module Operations {
  import opened Trees
  import opened Paths
  import opened NodeStore
  import opened InsertRules
  import opened DeleteRules
  import opened EraseRules
  import opened Splices
  import opened FixupSteps

  datatype Option<T> = None | Some(value: T)

  /** The first key of a sorted sequence is the least one. */
  lemma {:induction false} FirstIsLeast(s: seq<int>)
    requires Sorted(s) && |s| > 0
    ensures forall k | k in s :: s[0] <= k
  {
    forall k | k in s ensures s[0] <= k {
      var j :| 0 <= j < |s| && s[j] == k;
    }
  }

  /** The last key of a sorted sequence is the greatest one. */
  lemma {:induction false} LastIsGreatest(s: seq<int>)
    requires Sorted(s) && |s| > 0
    ensures forall k | k in s :: k <= s[|s| - 1]
  {
    forall k | k in s ensures k <= s[|s| - 1] {
      var j :| 0 <= j < |s| && s[j] == k;
    }
  }

  // ---------------------------------------------------------------------------
  // Construction

  /** `new_rbtree`: a store with only the black sentinel, whose links are
      empty, and the root pointing at the sentinel. */
  method NewTree() returns (a: RbTree)
    ensures Holds(a, Leaf) && |a.nodes| == 1
    ensures a.nodes[Nil] == NodeRec(Nil, Nil, Nil, Black, 0)
  {
    a := RbTree([NodeRec(Nil, Nil, Nil, Black, 0)], Nil);
  }

  // ---------------------------------------------------------------------------
  // Lookup

  /** `rbtree_find`: a node holding `key` when the tree has one, and the null
      pointer otherwise. */
  method Find(a: RbTree, key: int, ghost t: Tree) returns (r: Option<nat>)
    requires Holds(a, t) && Sorted(Keys(t))
    ensures r.Some? <==> key in Keys(t)
    ensures r.Some? ==> r.value in Ids(t) && r.value < |a.nodes| && a.nodes[r.value].key == key
  {
    BstIffSorted(t);
    var cur := a.root;
    ghost var s, par := t, Nil;
    while cur != Nil
      invariant Repr(a.nodes, s, par) && cur == RootId(s) && Bst(s)
      invariant Ids(s) <= Ids(t)
      invariant key in Keys(t) <==> key in Keys(s)
      decreases Size(s)
    {
      if a.nodes[cur].key == key {
        return Some(cur);
      } else if a.nodes[cur].key > key {
        assert key !in Keys(s.right) && key != s.key;
        s, par, cur := s.left, cur, a.nodes[cur].left;
      } else {
        assert key !in Keys(s.left) && key != s.key;
        s, par, cur := s.right, cur, a.nodes[cur].right;
      }
    }
    return None;
  }

  /** `rbtree_min`: the node holding the first key of the in-order sequence,
      the least key when the keys are ordered.  The tree must not be empty. */
  method Min(a: RbTree, ghost t: Tree) returns (r: nat)
    requires Holds(a, t) && t.Node?
    ensures r == Least(t).id && r < |a.nodes| && a.nodes[r].key == Keys(t)[0]
    ensures Sorted(Keys(t)) ==> forall k | k in Keys(t) :: a.nodes[r].key <= k
  {
    var cur := a.root;
    ghost var q: Path, u, par := [], t, Nil;
    while a.nodes[cur].left != Nil
      invariant Repr(a.nodes, u, par) && Plug(q, u) == t && AllLeft(q) && u.Node? && cur == u.id
      decreases Size(u)
    {
      PlugCons(LeftOf(u.color, u.id, u.key, u.right), q, u.left);
      q, u, par := [LeftOf(u.color, u.id, u.key, u.right)] + q, u.left, cur;
      cur := a.nodes[cur].left;
    }
    assert u.left.Leaf? by {
      if u.left.Node? { assert Repr(a.nodes, u.left, u.id); }
    }
    LeftmostLeast(t, q, u);
    PlugKeys(q, u);
    AllLeftKeys(q);
    r := cur;
    if Sorted(Keys(t)) {
      FirstIsLeast(Keys(t));
    }
  }

  /** `rbtree_max`: the node holding the last key of the in-order sequence,
      the greatest key when the keys are ordered.  The tree must not be empty. */
  method Max(a: RbTree, ghost t: Tree) returns (r: nat)
    requires Holds(a, t) && t.Node?
    ensures r == Greatest(t).id && r < |a.nodes| && a.nodes[r].key == Keys(t)[|Keys(t)| - 1]
    ensures Sorted(Keys(t)) ==> forall k | k in Keys(t) :: k <= a.nodes[r].key
  {
    var cur := a.root;
    ghost var q: Path, u, par := [], t, Nil;
    while a.nodes[cur].right != Nil
      invariant Repr(a.nodes, u, par) && Plug(q, u) == t && AllRight(q) && u.Node? && cur == u.id
      decreases Size(u)
    {
      PlugCons(RightOf(u.color, u.left, u.id, u.key), q, u.right);
      q, u, par := [RightOf(u.color, u.left, u.id, u.key)] + q, u.right, cur;
      cur := a.nodes[cur].right;
    }
    assert u.right.Leaf? by {
      if u.right.Node? { assert Repr(a.nodes, u.right, u.id); }
    }
    RightmostGreatest(t, q, u);
    PlugKeys(q, u);
    AllRightKeys(q);
    r := cur;
    if Sorted(Keys(t)) {
      LastIsGreatest(Keys(t));
    }
  }

  /** `tree_min`: the leftmost node of the subtree under `n`, or the null
      pointer for a null `n`.  The subtree is focused by the path `p`. */
  method TreeMin(a: RbTree, n: Option<nat>, ghost p: Path, ghost s: Tree) returns (r: Option<nat>, ghost q: Path, ghost u: Tree)
    requires Holds(a, Plug(p, s))
    requires n.Some? ==> s.Node? && n.value == s.id
    ensures n.None? ==> r.None?
    ensures n.Some? ==>
      && r.Some? && Leftmost(s, q, u) && u == Least(s) && r.value == u.id
      && r.value < |a.nodes| && a.nodes[r.value].key == Keys(s)[0]
    ensures n.Some? && Sorted(Keys(s)) ==> forall k | k in Keys(s) :: a.nodes[r.value].key <= k
  {
    if n.None? {
      return None, [], s;
    }
    FocusFacts(a, p, s);
    var x := n.value;
    ghost var par := ParentId(p);
    q, u := [], s;
    while a.nodes[x].left != Nil
      invariant Repr(a.nodes, u, par) && Plug(q, u) == s && AllLeft(q) && u.Node? && x == u.id
      decreases Size(u)
    {
      PlugCons(LeftOf(u.color, u.id, u.key, u.right), q, u.left);
      q, u, par := [LeftOf(u.color, u.id, u.key, u.right)] + q, u.left, x;
      x := a.nodes[x].left;
    }
    assert u.left.Leaf? by {
      if u.left.Node? { assert Repr(a.nodes, u.left, u.id); }
    }
    PlugKeys(q, u);
    AllLeftKeys(q);
    LeftmostLeast(s, q, u);
    r := Some(x);
    if Sorted(Keys(s)) {
      FirstIsLeast(Keys(s));
    }
  }

  // ---------------------------------------------------------------------------
  // Traversal

  /** `inorder`: writes the keys of the subtree under `root`, in order, into
      `arr` from position `i` on and returns the position after the last one
      written.  The C version advances a pointer into the caller's buffer;
      here the buffer and the position travel together. */
  method Inorder(a: RbTree, root: nat, arr: seq<int>, i: nat, ghost s: Tree, ghost par: nat) returns (arr': seq<int>, i': nat)
    requires Repr(a.nodes, s, par) && root == RootId(s)
    requires i + |Keys(s)| <= |arr|
    ensures i' == i + |Keys(s)| && |arr'| == |arr|
    ensures arr'[i..i'] == Keys(s)
    ensures arr'[..i] == arr[..i] && arr'[i'..] == arr[i'..]
    decreases s
  {
    if root != Nil {
      var arr1, j := Inorder(a, a.nodes[root].left, arr, i, s.left, root);
      var arr2 := arr1[j := a.nodes[root].key];
      arr', i' := Inorder(a, a.nodes[root].right, arr2, j + 1, s.right, root);
      WrittenAround(arr, arr1, arr', i, j, i', Keys(s.left), a.nodes[root].key, Keys(s.right));
    } else {
      arr', i' := arr, i;
    }
  }

  /** Writing a left part, one key, then a right part into consecutive
      stretches of a buffer leaves their concatenation there and nothing else
      changed. */
  lemma {:induction false} WrittenAround(arr: seq<int>, arr1: seq<int>, arr3: seq<int>, i: nat, j: nat, i3: nat,
                                         L: seq<int>, k: int, R: seq<int>)
    requires |arr1| == |arr| && |arr3| == |arr| && i + |L| == j && j + 1 + |R| == i3 <= |arr|
    requires arr1[i..j] == L && arr1[..i] == arr[..i] && arr1[j..] == arr[j..]
    requires arr3[j + 1..i3] == R && arr3[..j + 1] == arr1[j := k][..j + 1] && arr3[i3..] == arr1[j := k][i3..]
    ensures arr3[i..i3] == L + [k] + R && arr3[..i] == arr[..i] && arr3[i3..] == arr[i3..]
  {
    var arr2 := arr1[j := k];
    assert arr3[i..j] == arr2[i..j] == arr1[i..j];
    assert arr3[j] == arr2[j] == k;
    assert arr3[i..i3] == arr3[i..j] + [arr3[j]] + arr3[j + 1..i3];
    assert arr3[..i] == arr2[..i] == arr1[..i];
    assert arr3[i3..] == arr2[i3..] == arr1[i3..];
  }

  /** `rbtree_to_array`: the keys of the tree, in order, at the front of the
      buffer, which must have room for all of them.  The bound `n` is not
      consulted; the result is always 0. */
  method ToArray(a: RbTree, arr: seq<int>, n: nat, ghost t: Tree) returns (res: int, arr': seq<int>)
    requires Holds(a, t) && |Keys(t)| <= |arr|
    ensures res == 0 && |arr'| == |arr|
    ensures arr'[..|Keys(t)|] == Keys(t) && arr'[|Keys(t)|..] == arr[|Keys(t)|..]
  {
    if a.root == Nil {
      return 0, arr;
    }
    var end;
    arr', end := Inorder(a, a.root, arr, 0, t, Nil);
    return 0, arr';
  }

  // ---------------------------------------------------------------------------
  // Insertion

  /** `rbtree_insert`: a fresh red node holding `key` is linked where the
      descent from the root ends, going right only past smaller keys, and the
      fix-up restores the red-black invariants.  The new key goes before every
      equal key and after every smaller one; nothing else is added or lost.
      The node is returned. */
  method Insert(a: RbTree, key: int, ghost t: Tree) returns (r: RbTree, n: nat, ghost t': Tree, ghost pos: nat)
    requires Holds(a, t) && IsRedBlack(t)
    ensures Holds(r, t') && IsRedBlack(t')
    ensures pos <= |Keys(t)| && Keys(t') == Keys(t)[..pos] + [key] + Keys(t)[pos..]
    ensures forall j | 0 <= j < pos :: Keys(t)[j] < key
    ensures forall j | pos <= j < |Keys(t)| :: key <= Keys(t)[j]
    ensures n == |a.nodes| && |r.nodes| == |a.nodes| + 1 && r.nodes[n].key == key
    ensures Ids(t') == Ids(t) + {n} && n !in Ids(t)
    ensures multiset(Keys(t')) == multiset(Keys(t)) + multiset{key}
    ensures KeysKept(a, r)
  {
    var parent: nat;
    ghost var p: Path;
    parent, p := Descend(a, key, t);
    var b: RbTree;
    b, n := Link(a, key, parent, p);
    ghost var s' := Node(Red, Leaf, n, key, Leaf);
    InsertStart(p, n, key);
    InsertPlace(p, n, key);
    pos := |LeftKeys(p)|;
    r, t' := InsertFixup(b, n, p, s');
    KeysKeptTrans(a, b, r);
    KeysKeptAt(b, r, n);
    InsertMultiset(Keys(t), pos, key);
  }

  /** Lines 57-63 and 81-91: a fresh red slot holding `key`, hung under
      `parent` where the descent ended.  Allocation comes after the descent
      here; the descent does not read the new node. */
  method Link(a: RbTree, key: int, parent: nat, ghost p: Path) returns (b: RbTree, n: nat)
    requires Holds(a, Plug(p, Leaf)) && parent == ParentId(p)
    requires |p| > 0 ==> (p[0].RightOf? <==> p[0].key < key)
    ensures n == |a.nodes| && |b.nodes| == |a.nodes| + 1 && b.nodes[n].key == key
    ensures Holds(b, Plug(p, Node(Red, Leaf, n, key, Leaf)))
    ensures Ids(Plug(p, Node(Red, Leaf, n, key, Leaf))) == Ids(Plug(p, Leaf)) + {n} && n !in Ids(Plug(p, Leaf))
    ensures KeysKept(a, b)
  {
    n := |a.nodes|;
    InsertLink(a, p, key);
    var b0 := RbTree(a.nodes + [NewRec(key)], a.root);
    KeysAgreeFrom(a.nodes, b0.nodes, |a.nodes|);
    var b1 := SetParent(b0, n, parent);
    b := LinkChild(b1, parent, n, key);
    KeysKeptTrans(a, b0, b1);
    KeysKeptTrans(a, b1, b);
    PlugIds(p, Leaf);
    PlugIds(p, Node(Red, Leaf, n, key, Leaf));
    ReprIds(a.nodes, Plug(p, Leaf), Nil);
  }

  /** Lines 66-78: the descent from the root to the empty position where the
      new node goes.  It ends under `parent`, having gone right exactly past
      the keys smaller than `key`. */
  method Descend(a: RbTree, key: int, ghost t: Tree) returns (parent: nat, ghost p: Path)
    requires Holds(a, t) && Sorted(Keys(t))
    ensures Plug(p, Leaf) == t && parent == ParentId(p) && Fits(p, key)
    ensures |p| > 0 ==> (p[0].RightOf? <==> p[0].key < key)
  {
    parent := Nil;
    var cur := a.root;
    ghost var s: Tree;
    p, s := [], t;
    while cur != Nil
      invariant Holds(a, Plug(p, s)) && Plug(p, s) == t && cur == RootId(s) && parent == ParentId(p)
      invariant Fits(p, key)
      invariant |p| > 0 ==> (p[0].RightOf? <==> p[0].key < key)
      decreases Size(s)
    {
      FocusFacts(a, p, s);
      DescendFits(p, s, key);
      parent := cur;
      if key > a.nodes[cur].key {
        PlugCons(RightOf(s.color, s.left, s.id, s.key), p, s.right);
        p, s := [RightOf(s.color, s.left, s.id, s.key)] + p, s.right;
        cur := a.nodes[cur].right;
      } else {
        PlugCons(LeftOf(s.color, s.id, s.key, s.right), p, s.left);
        p, s := [LeftOf(s.color, s.id, s.key, s.right)] + p, s.left;
        cur := a.nodes[cur].left;
      }
    }
    assert s == Leaf by {
      if s.Node? { FocusFacts(a, p, s); }
    }
  }

  /** `rbtree_insert_fixup`: from a red node whose parent may be red, the loop
      recolours and rotates upwards until the parent is black, and the root is
      then blackened.  The keys and slots of the tree do not change, nor does
      any node's key. */
  method InsertFixup(a: RbTree, z: nat, ghost p: Path, ghost s: Tree) returns (r: RbTree, ghost t': Tree)
    requires Holds(a, Plug(p, s)) && InsInv(p, s) && z == s.id && z < |a.nodes|
    ensures Holds(r, t') && Balanced(t') && RedFree(t') && RootColor(t') == Black
    ensures Keys(t') == Keys(Plug(p, s)) && Ids(t') == Ids(Plug(p, s))
    ensures |r.nodes| == |a.nodes| && KeysKept(a, r)
  {
    r := a;
    KeysKeptSame(a, r);
    var node := z;
    ghost var q, u := p, s;
    FocusFacts(r, q, u);
    while r.nodes[r.nodes[node].parent].color == Red
      invariant Holds(r, Plug(q, u)) && InsInv(q, u) && node == u.id
      invariant node < |r.nodes| && r.nodes[node].parent == ParentId(q) && ParentId(q) < |r.nodes|
      invariant Keys(Plug(q, u)) == Keys(Plug(p, s)) && Ids(Plug(q, u)) == Ids(Plug(p, s))
      invariant |r.nodes| == |a.nodes| && KeysKept(a, r)
      decreases |q|
    {
      FocusFacts(r, q, u);
      RedParent(q, u);
      InsertReads(r, q, u);
      ghost var r0 := r;
      if r.nodes[node].parent == r.nodes[r.nodes[r.nodes[node].parent].parent].left {
        r, node, q, u := InsertCaseLeft(r, node, q, u);
      } else {
        r, node, q, u := InsertCaseRight(r, node, q, u);
      }
      KeysKeptTrans(a, r0, r);
      FocusFacts(r, q, u);
    }
    FocusFacts(r, q, u);
    InsertDone(q, u);
    PlugRoot(q, u);
    SetColorFocus(r, [], Plug(q, u), Black);
    ghost var r0 := r;
    r := SetColor(r, r.root, Black);
    KeysKeptTrans(a, r0, r);
    t' := Blacken(Plug(q, u));
  }

  /** Lines 104-124: the parent is a left child.  A red uncle is recoloured
      with the parent and the grandparent, which becomes the cursor; a black
      uncle leads to at most two rotations, after which the parent is black.
      The colour writes do not touch any link, so the parent, grandparent and
      uncle are read once, before them. */
  method InsertCaseLeft(b: RbTree, node: nat, ghost q: Path, ghost u: Tree)
    returns (r: RbTree, node': nat, ghost q': Path, ghost u': Tree)
    requires Holds(b, Plug(q, u)) && InsInv(q, u) && node == u.id && ParentColor(q) == Red
    requires |q| >= 2 && q[1].LeftOf?
    ensures Holds(r, Plug(q', u')) && InsInv(q', u') && node' == u'.id && |q'| < |q|
    ensures Keys(Plug(q', u')) == Keys(Plug(q, u)) && Ids(Plug(q', u')) == Ids(Plug(q, u))
    ensures |r.nodes| == |b.nodes| && KeysKept(b, r)
  {
    RedParent(q, u);
    InsertReads(b, q, u);
    var parent := b.nodes[node].parent;
    var grand := b.nodes[parent].parent;
    var uncle := b.nodes[grand].right;
    if b.nodes[uncle].color == Red {
      RecolorLeftStore(b, q, u);
      RecolorUpKeeps(q, u);
      var r1 := SetColor(b, uncle, Black);
      var r2 := SetColor(r1, parent, Black);
      r := SetColor(r2, grand, Red);
      KeysKeptTrans(b, r1, r2);
      KeysKeptTrans(b, r2, r);
      node' := grand;
      q', u' := RecolorUp(q, u).path, RecolorUp(q, u).focus;
    } else {
      r, node', q', u' := InsertRotateLeft(b, node, q, u);
    }
  }

  /** Lines 117-123: with a black uncle, a cursor that is a right child moves
      up and its parent is rotated left; then the parent turns black, the
      grandparent red, and the grandparent is rotated right. */
  method InsertRotateLeft(b: RbTree, node: nat, ghost q: Path, ghost u: Tree)
    returns (r: RbTree, node': nat, ghost q': Path, ghost u': Tree)
    requires Holds(b, Plug(q, u)) && InsInv(q, u) && node == u.id && ParentColor(q) == Red
    requires |q| >= 2 && q[1].LeftOf? && UncleColor(q) == Black
    ensures Holds(r, Plug(q', u')) && InsInv(q', u') && node' == u'.id && |q'| < |q|
    ensures Keys(Plug(q', u')) == Keys(Plug(q, u)) && Ids(Plug(q', u')) == Ids(Plug(q, u))
    ensures |r.nodes| == |b.nodes| && KeysKept(b, r)
  {
    InsertReads(b, q, u);
    r, node', q', u' := b, node, q, u;
    KeysKeptSame(b, r);
    if node == b.nodes[b.nodes[node].parent].right {
      node' := b.nodes[node].parent;
      RotateInnerStore(b, q, u);
      RotateInnerKeeps(q, u);
      RotateInnerContents(q, u);
      LeftRotateKeys(b, node');
      r := LeftRotate(b, node');
      q', u' := RotateInner(q, u).path, RotateInner(q, u).focus;
    }
    InsertReads(r, q', u');
    var parent := r.nodes[node'].parent;
    var grand := r.nodes[parent].parent;
    RotateOuterStore(r, q', u');
    RotateOuterKeeps(q', u');
    RotateOuterContents(q', u');
    var r1 := SetColor(r, parent, Black);
    var r2 := SetColor(r1, grand, Red);
    RightRotateKeys(r2, grand);
    KeysKeptTrans(b, r, r1);
    KeysKeptTrans(b, r1, r2);
    r := RightRotate(r2, grand);
    KeysKeptTrans(b, r2, r);
    q', u' := RotateOuter(q', u').path, RotateOuter(q', u').focus;
  }

  /** Lines 127-145: the mirror image of `InsertCaseLeft`. */
  method InsertCaseRight(b: RbTree, node: nat, ghost q: Path, ghost u: Tree)
    returns (r: RbTree, node': nat, ghost q': Path, ghost u': Tree)
    requires Holds(b, Plug(q, u)) && InsInv(q, u) && node == u.id && ParentColor(q) == Red
    requires |q| >= 2 && q[1].RightOf?
    ensures Holds(r, Plug(q', u')) && InsInv(q', u') && node' == u'.id && |q'| < |q|
    ensures Keys(Plug(q', u')) == Keys(Plug(q, u)) && Ids(Plug(q', u')) == Ids(Plug(q, u))
    ensures |r.nodes| == |b.nodes| && KeysKept(b, r)
  {
    RedParent(q, u);
    InsertReads(b, q, u);
    var parent := b.nodes[node].parent;
    var grand := b.nodes[parent].parent;
    var uncle := b.nodes[grand].left;
    if b.nodes[uncle].color == Red {
      RecolorRightStore(b, q, u);
      RecolorUpKeeps(q, u);
      var r1 := SetColor(b, parent, Black);
      var r2 := SetColor(r1, uncle, Black);
      r := SetColor(r2, grand, Red);
      KeysKeptTrans(b, r1, r2);
      KeysKeptTrans(b, r2, r);
      node' := grand;
      q', u' := RecolorUp(q, u).path, RecolorUp(q, u).focus;
    } else {
      r, node', q', u' := InsertRotateRight(b, node, q, u);
    }
  }

  /** Lines 138-144: the mirror image of `InsertRotateLeft`. */
  method InsertRotateRight(b: RbTree, node: nat, ghost q: Path, ghost u: Tree)
    returns (r: RbTree, node': nat, ghost q': Path, ghost u': Tree)
    requires Holds(b, Plug(q, u)) && InsInv(q, u) && node == u.id && ParentColor(q) == Red
    requires |q| >= 2 && q[1].RightOf? && UncleColor(q) == Black
    ensures Holds(r, Plug(q', u')) && InsInv(q', u') && node' == u'.id && |q'| < |q|
    ensures Keys(Plug(q', u')) == Keys(Plug(q, u)) && Ids(Plug(q', u')) == Ids(Plug(q, u))
    ensures |r.nodes| == |b.nodes| && KeysKept(b, r)
  {
    InsertReads(b, q, u);
    r, node', q', u' := b, node, q, u;
    KeysKeptSame(b, r);
    if node == b.nodes[b.nodes[node].parent].left {
      node' := b.nodes[node].parent;
      RotateInnerStore(b, q, u);
      RotateInnerKeeps(q, u);
      RotateInnerContents(q, u);
      RightRotateKeys(b, node');
      r := RightRotate(b, node');
      q', u' := RotateInner(q, u).path, RotateInner(q, u).focus;
    }
    InsertReads(r, q', u');
    var parent := r.nodes[node'].parent;
    var grand := r.nodes[parent].parent;
    RotateOuterStore(r, q', u');
    RotateOuterKeeps(q', u');
    RotateOuterContents(q', u');
    var r1 := SetColor(r, parent, Black);
    var r2 := SetColor(r1, grand, Red);
    LeftRotateKeys(r2, grand);
    KeysKeptTrans(b, r, r1);
    KeysKeptTrans(b, r1, r2);
    r := LeftRotate(r2, grand);
    KeysKeptTrans(b, r2, r);
    q', u' := RotateOuter(q', u').path, RotateOuter(q', u').focus;
  }

  // ---------------------------------------------------------------------------
  // Deletion fix-up

  /** `delete_fixup`: from the subtree `x` that is one black node short, the
      loop recolours and rotates upwards while `x` is black and not the root,
      and `x` is then blackened.  An empty `x` is the sentinel, whose parent
      link names the node `x` hangs under.  The keys and slots of the tree do
      not change. */
  method DeleteFixup(a: RbTree, x: nat, ghost p: Path, ghost s: Tree) returns (r: RbTree, ghost t': Tree)
    requires Holds(a, Plug(p, s)) && DelInv(p, s) && x == RootId(s)
    requires s.Leaf? && |p| > 0 ==> a.nodes[Nil].parent == p[0].id
    ensures Holds(r, t') && Balanced(t') && RedFree(t') && RootColor(t') == Black
    ensures Keys(t') == Keys(Plug(p, s)) && Ids(t') == Ids(Plug(p, s))
    ensures |r.nodes| == |a.nodes| && KeysKept(a, r)
  {
    r := a;
    KeysKeptSame(a, r);
    var cur := x;
    ghost var q, u := p, s;
    LoopReads(r, q, u);
    while cur != r.root && r.nodes[cur].color == Black
      invariant Holds(r, Plug(q, u)) && DelInv(q, u) && cur == RootId(u) && cur < |r.nodes|
      invariant u.Leaf? && |q| > 0 ==> r.nodes[Nil].parent == q[0].id
      invariant Keys(Plug(q, u)) == Keys(Plug(p, s)) && Ids(Plug(q, u)) == Ids(Plug(p, s))
      invariant |r.nodes| == |a.nodes| && KeysKept(a, r)
      decreases 2 * |q| + Weight(RootColor(u))
    {
      LoopReads(r, q, u);
      LoopFacts(q, u);
      DeleteReads(r, q, u);
      ghost var r0 := r;
      if cur == r.nodes[r.nodes[cur].parent].left {
        r, cur, q, u := DeleteCaseLeft(r, cur, q, u);
      } else {
        r, cur, q, u := DeleteCaseRight(r, cur, q, u);
      }
      KeysKeptTrans(a, r0, r);
      LoopReads(r, q, u);
    }
    LoopReads(r, q, u);
    DeleteDone(q, u);
    if u.Node? {
      SetColorFocus(r, q, u, Black);
    } else {
      assert r.nodes[Nil].(color := Black) == r.nodes[Nil];
    }
    ghost var r0 := r;
    r := SetColor(r, cur, Black);
    KeysKeptTrans(a, r0, r);
    t' := Plug(q, Blacken(u));
  }

  /** Lines 251-260: `x` is a left child.  A red sibling is blackened, the
      parent reddened and rotated left, which gives `x` a black sibling; the
      black-sibling cases follow. */
  method DeleteCaseLeft(b: RbTree, x: nat, ghost q: Path, ghost u: Tree)
    returns (r: RbTree, x': nat, ghost q': Path, ghost u': Tree)
    requires Holds(b, Plug(q, u)) && DelInv(q, u) && Running(q, u) && x == RootId(u)
    requires |q| > 0 && q[0].LeftOf? && (u.Leaf? ==> b.nodes[Nil].parent == q[0].id)
    ensures Holds(r, Plug(q', u')) && DelInv(q', u') && x' == RootId(u')
    ensures u'.Leaf? && |q'| > 0 ==> r.nodes[Nil].parent == q'[0].id
    ensures Keys(Plug(q', u')) == Keys(Plug(q, u)) && Ids(Plug(q', u')) == Ids(Plug(q, u))
    ensures |r.nodes| == |b.nodes| && KeysKept(b, r)
    ensures 2 * |q'| + Weight(RootColor(u')) < 2 * |q| + Weight(RootColor(u))
  {
    SiblingPresent(q, u);
    DeleteReads(b, q, u);
    var parent := b.nodes[x].parent;
    var w := b.nodes[parent].right;
    r, q', u' := b, q, u;
    KeysKeptSame(b, r);
    if b.nodes[w].color == Red {
      SiblingRedStore(b, q, u);
      SiblingRedKeeps(q, u);
      SiblingRedContents(q, u);
      LeftRotateKeys(SetColor(SetColor(b, w, Black), parent, Red), parent);
      var r1 := SetColor(b, w, Black);
      var r2 := SetColor(r1, parent, Red);
      LeftRotateKeys(r2, parent);
      r := LeftRotate(r2, parent);
      KeysKeptTrans(b, r1, r2);
      KeysKeptTrans(b, r2, r);
      q', u' := SiblingRed(q, u).path, SiblingRed(q, u).focus;
    }
    ghost var r0 := r;
    r, x', q', u' := DeleteBlackSiblingLeft(r, x, q', u');
    KeysKeptTrans(b, r0, r);
  }

  /** Lines 262-279: `x` is a left child with a black sibling `w`, read
      through `x`'s parent.  With two black children `w` turns red and `x`
      moves up; otherwise the rotations of cases III and IV end the loop. */
  method DeleteBlackSiblingLeft(b: RbTree, x: nat, ghost q: Path, ghost u: Tree)
    returns (r: RbTree, x': nat, ghost q': Path, ghost u': Tree)
    requires Holds(b, Plug(q, u)) && DelInv(q, u) && Running(q, u) && x == RootId(u)
    requires |q| > 0 && q[0].LeftOf? && (u.Leaf? ==> b.nodes[Nil].parent == q[0].id)
    requires q[0].sibling.Node? && q[0].sibling.color == Black
    ensures Holds(r, Plug(q', u')) && DelInv(q', u') && x' == RootId(u')
    ensures |q'| == 0 || (|q'| == |q| - 1 && u'.Node? && u'.color == q[0].color)
    ensures Keys(Plug(q', u')) == Keys(Plug(q, u)) && Ids(Plug(q', u')) == Ids(Plug(q, u))
    ensures |r.nodes| == |b.nodes| && KeysKept(b, r)
  {
    DeleteReads(b, q, u);
    var w := b.nodes[b.nodes[x].parent].right;
    if b.nodes[b.nodes[w].left].color == Black && b.nodes[b.nodes[w].right].color == Black {
      RecolorSiblingStore(b, q, u);
      RecolorSiblingKeeps(q, u);
      RecolorSiblingContents(q, u);
      r := SetColor(b, w, Red);
      x' := r.nodes[x].parent;
      q', u' := RecolorSibling(q, u).path, RecolorSibling(q, u).focus;
    } else {
      r, x', q', u' := DeleteRotateLeft(b, x, q, u);
    }
  }

  /** Lines 267-278: a black far child is first made red by rotating the
      sibling right (case III); then the sibling takes the parent's colour, the
      parent and the far child turn black, the parent is rotated left, and `x`
      becomes the root (case IV). */
  method DeleteRotateLeft(b: RbTree, x: nat, ghost q: Path, ghost u: Tree)
    returns (r: RbTree, x': nat, ghost q': Path, ghost u': Tree)
    requires Holds(b, Plug(q, u)) && DelInv(q, u) && Running(q, u) && x == RootId(u)
    requires |q| > 0 && q[0].LeftOf? && (u.Leaf? ==> b.nodes[Nil].parent == q[0].id)
    requires q[0].sibling.Node? && q[0].sibling.color == Black
    requires RootColor(q[0].sibling.left) == Red || RootColor(q[0].sibling.right) == Red
    ensures Holds(r, Plug(q', u')) && DelInv(q', u') && x' == RootId(u') && q' == []
    ensures Keys(Plug(q', u')) == Keys(Plug(q, u)) && Ids(Plug(q', u')) == Ids(Plug(q, u))
    ensures |r.nodes| == |b.nodes| && KeysKept(b, r)
  {
    DeleteReads(b, q, u);
    var w := b.nodes[b.nodes[x].parent].right;
    r, q', u' := b, q, u;
    KeysKeptSame(b, r);
    if b.nodes[b.nodes[w].right].color == Black {
      RotateSiblingLeftStore(b, q, u);
      RotateSiblingKeeps(q, u);
      RotateSiblingContents(q, u);
      r := RightRotate(SetColor(SetColor(b, b.nodes[w].left, Black), w, Red), w);
      q', u' := RotateSibling(q, u).path, RotateSibling(q, u).focus;
      DeleteReads(r, q', u');
      w := r.nodes[r.nodes[x].parent].right;
    }
    var parent := r.nodes[x].parent;
    RotateParentLeftStore(r, q', u');
    RotateParentKeeps(q', u');
    RotateParentContents(q', u');
    ghost var r0 := r;
    r := LeftRotate(SetColor(SetColor(SetColor(r, w, r.nodes[parent].color), parent, Black), r.nodes[w].right, Black), parent);
    KeysKeptTrans(b, r0, r);
    x' := r.root;
    q', u' := [], RotateParent(q', u').focus;
  }

  /** Lines 282-289: the mirror image of `DeleteCaseLeft`. */
  method DeleteCaseRight(b: RbTree, x: nat, ghost q: Path, ghost u: Tree)
    returns (r: RbTree, x': nat, ghost q': Path, ghost u': Tree)
    requires Holds(b, Plug(q, u)) && DelInv(q, u) && Running(q, u) && x == RootId(u)
    requires |q| > 0 && q[0].RightOf? && (u.Leaf? ==> b.nodes[Nil].parent == q[0].id)
    ensures Holds(r, Plug(q', u')) && DelInv(q', u') && x' == RootId(u')
    ensures u'.Leaf? && |q'| > 0 ==> r.nodes[Nil].parent == q'[0].id
    ensures Keys(Plug(q', u')) == Keys(Plug(q, u)) && Ids(Plug(q', u')) == Ids(Plug(q, u))
    ensures |r.nodes| == |b.nodes| && KeysKept(b, r)
    ensures 2 * |q'| + Weight(RootColor(u')) < 2 * |q| + Weight(RootColor(u))
  {
    SiblingPresent(q, u);
    DeleteReads(b, q, u);
    var parent := b.nodes[x].parent;
    var w := b.nodes[parent].left;
    r, q', u' := b, q, u;
    KeysKeptSame(b, r);
    if b.nodes[w].color == Red {
      SiblingRedStore(b, q, u);
      SiblingRedKeeps(q, u);
      SiblingRedContents(q, u);
      RightRotateKeys(SetColor(SetColor(b, w, Black), parent, Red), parent);
      var r1 := SetColor(b, w, Black);
      var r2 := SetColor(r1, parent, Red);
      RightRotateKeys(r2, parent);
      r := RightRotate(r2, parent);
      KeysKeptTrans(b, r1, r2);
      KeysKeptTrans(b, r2, r);
      q', u' := SiblingRed(q, u).path, SiblingRed(q, u).focus;
    }
    ghost var r0 := r;
    r, x', q', u' := DeleteBlackSiblingRight(r, x, q', u');
    KeysKeptTrans(b, r0, r);
  }

  /** Lines 291-308: the mirror image of `DeleteBlackSiblingLeft`. */
  method DeleteBlackSiblingRight(b: RbTree, x: nat, ghost q: Path, ghost u: Tree)
    returns (r: RbTree, x': nat, ghost q': Path, ghost u': Tree)
    requires Holds(b, Plug(q, u)) && DelInv(q, u) && Running(q, u) && x == RootId(u)
    requires |q| > 0 && q[0].RightOf? && (u.Leaf? ==> b.nodes[Nil].parent == q[0].id)
    requires q[0].sibling.Node? && q[0].sibling.color == Black
    ensures Holds(r, Plug(q', u')) && DelInv(q', u') && x' == RootId(u')
    ensures |q'| == 0 || (|q'| == |q| - 1 && u'.Node? && u'.color == q[0].color)
    ensures Keys(Plug(q', u')) == Keys(Plug(q, u)) && Ids(Plug(q', u')) == Ids(Plug(q, u))
    ensures |r.nodes| == |b.nodes| && KeysKept(b, r)
  {
    DeleteReads(b, q, u);
    var w := b.nodes[b.nodes[x].parent].left;
    if b.nodes[b.nodes[w].right].color == Black && b.nodes[b.nodes[w].left].color == Black {
      RecolorSiblingStore(b, q, u);
      RecolorSiblingKeeps(q, u);
      RecolorSiblingContents(q, u);
      r := SetColor(b, w, Red);
      x' := r.nodes[x].parent;
      q', u' := RecolorSibling(q, u).path, RecolorSibling(q, u).focus;
    } else {
      r, x', q', u' := DeleteRotateRight(b, x, q, u);
    }
  }

  /** Lines 296-307: the mirror image of `DeleteRotateLeft`. */
  method DeleteRotateRight(b: RbTree, x: nat, ghost q: Path, ghost u: Tree)
    returns (r: RbTree, x': nat, ghost q': Path, ghost u': Tree)
    requires Holds(b, Plug(q, u)) && DelInv(q, u) && Running(q, u) && x == RootId(u)
    requires |q| > 0 && q[0].RightOf? && (u.Leaf? ==> b.nodes[Nil].parent == q[0].id)
    requires q[0].sibling.Node? && q[0].sibling.color == Black
    requires RootColor(q[0].sibling.left) == Red || RootColor(q[0].sibling.right) == Red
    ensures Holds(r, Plug(q', u')) && DelInv(q', u') && x' == RootId(u') && q' == []
    ensures Keys(Plug(q', u')) == Keys(Plug(q, u)) && Ids(Plug(q', u')) == Ids(Plug(q, u))
    ensures |r.nodes| == |b.nodes| && KeysKept(b, r)
  {
    DeleteReads(b, q, u);
    var w := b.nodes[b.nodes[x].parent].left;
    r, q', u' := b, q, u;
    KeysKeptSame(b, r);
    if b.nodes[b.nodes[w].left].color == Black {
      RotateSiblingRightStore(b, q, u);
      RotateSiblingKeeps(q, u);
      RotateSiblingContents(q, u);
      r := LeftRotate(SetColor(SetColor(b, b.nodes[w].right, Black), w, Red), w);
      q', u' := RotateSibling(q, u).path, RotateSibling(q, u).focus;
      DeleteReads(r, q', u');
      w := r.nodes[r.nodes[x].parent].left;
    }
    var parent := r.nodes[x].parent;
    RotateParentRightStore(r, q', u');
    RotateParentKeeps(q', u');
    RotateParentContents(q', u');
    ghost var r0 := r;
    r := RightRotate(SetColor(SetColor(SetColor(r, w, r.nodes[parent].color), parent, Black), r.nodes[w].left, Black), parent);
    KeysKeptTrans(b, r0, r);
    x' := r.root;
    q', u' := [], RotateParent(q', u').focus;
  }

  // ---------------------------------------------------------------------------
  // Erasure

  /** `rbtree_erase`: the node `z` leaves the tree.  A node with an empty side
      is replaced by its other child; otherwise its successor `y` takes its
      place, colour and left subtree.  When the node that left its position
      was black, the fix-up runs from the child `x` that took that position.
      Exactly `z`'s key at its in-order position and `z`'s slot disappear, the
      result is a red-black tree, and 0 is returned.  The slot itself stays
      in the store, unreachable. */
  method Erase(a: RbTree, z: nat, ghost t: Tree) returns (r: RbTree, res: int, ghost t': Tree, ghost pos: nat)
    requires Holds(a, t) && IsRedBlack(t) && z in Ids(t)
    ensures res == 0 && Holds(r, t') && IsRedBlack(t') && |r.nodes| == |a.nodes|
    ensures z < |a.nodes| && pos < |Keys(t)| && Keys(t)[pos] == a.nodes[z].key
    ensures Keys(t') == Drop(Keys(t), pos) && Ids(t') == Ids(t) - {z}
    ensures multiset(Keys(t')) == multiset(Keys(t)) - multiset{a.nodes[z].key}
    ensures KeysKept(a, r)
  {
    ghost var p, zt := Locate(t, z);
    var x: nat;
    var yColor: Color;
    ghost var w: Path, xt: Tree;
    r, x, yColor, w, xt, pos := Unlink(a, z, p, zt);
    ghost var r0 := r;
    r, t' := Rebalance(r, x, yColor, w, xt);
    KeysKeptTrans(a, r0, r);
    DropRedBlack(t, t', pos);
    DropMultiset(Keys(t), pos);
    res := 0;
  }

  /** Inserting a key and then erasing the node the insertion returned gives
      back a red-black tree over the same keys, in the same order, and the
      same slots.  With duplicate keys the erased node need not sit where the
      insertion put it in the order, but every position it can sit at holds
      an equal key. */
  method InsertThenErase(a: RbTree, key: int, ghost t: Tree) returns (r: RbTree, ghost t': Tree)
    requires Holds(a, t) && IsRedBlack(t)
    ensures Holds(r, t') && IsRedBlack(t') && |r.nodes| == |a.nodes| + 1
    ensures Keys(t') == Keys(t) && Ids(t') == Ids(t) && KeysKept(a, r)
  {
    var b: RbTree, n: nat, res: int;
    ghost var t1: Tree, pos: nat, pos': nat;
    b, n, t1, pos := Insert(a, key, t);
    r, res, t', pos' := Erase(b, n, t1);
    KeysKeptTrans(a, b, r);
    DropInserted(Keys(t), pos, key, pos');
  }

  /** A balanced, red-free tree with a black root whose keys are those of a
      red-black tree with one key dropped is a red-black tree. */
  lemma {:induction false} DropRedBlack(t: Tree, t': Tree, pos: nat)
    requires IsRedBlack(t) && pos < |Keys(t)| && Keys(t') == Drop(Keys(t), pos)
    requires Balanced(t') && RedFree(t') && RootColor(t') == Black
    ensures IsRedBlack(t')
  {
    SortedDrop(Keys(t), pos);
  }

  /** Lines 362-364: the fix-up runs only when the node that left its
      position was black; a red one leaves every invariant in place. */
  method Rebalance(a: RbTree, x: nat, yColor: Color, ghost w: Path, ghost xt: Tree) returns (r: RbTree, ghost t': Tree)
    requires Holds(a, Plug(w, xt)) && x == RootId(xt)
    requires xt.Leaf? && |w| > 0 ==> a.nodes[Nil].parent == w[0].id
    requires yColor == Black ==> DelInv(w, xt)
    requires yColor == Red ==> Balanced(Plug(w, xt)) && RedFree(Plug(w, xt)) && RootColor(Plug(w, xt)) == Black
    ensures Holds(r, t') && Balanced(t') && RedFree(t') && RootColor(t') == Black
    ensures Keys(t') == Keys(Plug(w, xt)) && Ids(t') == Ids(Plug(w, xt))
    ensures |r.nodes| == |a.nodes| && KeysKept(a, r)
  {
    if yColor == Black {
      r, t' := DeleteFixup(a, x, w, xt);
    } else {
      r, t' := a, Plug(w, xt);
      KeysKeptSame(a, r);
    }
  }

  /** Lines 326-356: `z` leaves its position, by one of the three ways
      below.  The cursor returned is on the child `x` that took the position
      of the node that left, and the colour returned is that node's, which
      decides whether the fix-up runs. */
  method Unlink(a: RbTree, z: nat, ghost p: Path, ghost zt: Tree)
    returns (r: RbTree, x: nat, yColor: Color, ghost w: Path, ghost xt: Tree, ghost pos: nat)
    requires Holds(a, Plug(p, zt)) && IsRedBlack(Plug(p, zt)) && zt.Node? && z == zt.id
    ensures Holds(r, Plug(w, xt)) && x == RootId(xt) && |r.nodes| == |a.nodes| && KeysKept(a, r)
    ensures xt.Leaf? && |w| > 0 ==> r.nodes[Nil].parent == w[0].id
    ensures yColor == Black ==> DelInv(w, xt)
    ensures yColor == Red ==> Balanced(Plug(w, xt)) && RedFree(Plug(w, xt)) && RootColor(Plug(w, xt)) == Black
    ensures z < |a.nodes| && pos < |Keys(Plug(p, zt))| && Keys(Plug(p, zt))[pos] == a.nodes[z].key
    ensures Keys(Plug(w, xt)) == Drop(Keys(Plug(p, zt)), pos)
    ensures Ids(Plug(w, xt)) == Ids(Plug(p, zt)) - {z}
    ensures zt.left.Leaf? || zt.right.Leaf? ==> yColor == zt.color
    ensures zt.left.Node? && zt.right.Node? ==> yColor == Least(zt.right).color
  {
    FocusRecord(a, p, zt);
    pos := |LeftKeys(p)| + |Keys(zt.left)|;
    if a.nodes[z].left == Nil {
      r, x, yColor, w, xt := ReplaceByChild(a, z, a.nodes[z].right, p, zt, zt.right);
    } else if a.nodes[z].right == Nil {
      r, x, yColor, w, xt := ReplaceByChild(a, z, a.nodes[z].left, p, zt, zt.left);
    } else {
      r, x, yColor, w, xt := EraseSuccessor(a, z, p, zt);
    }
  }

  /** Lines 331-339: `z` has an empty side and its other child `c` takes its
      place.  The cursor returned is on that child; the colour returned is
      `z`'s, which decides whether the fix-up runs. */
  method ReplaceByChild(a: RbTree, z: nat, c: nat, ghost p: Path, ghost zt: Tree, ghost ct: Tree)
    returns (r: RbTree, x: nat, yColor: Color, ghost w: Path, ghost xt: Tree)
    requires Holds(a, Plug(p, zt)) && IsRedBlack(Plug(p, zt))
    requires zt.Node? && z == zt.id && OneChild(zt, ct) && c == RootId(ct)
    ensures Holds(r, Plug(w, xt)) && x == RootId(xt) && |r.nodes| == |a.nodes| && KeysKept(a, r)
    ensures xt.Leaf? && |w| > 0 ==> r.nodes[Nil].parent == w[0].id
    ensures yColor == Black ==> DelInv(w, xt)
    ensures yColor == Red ==> Balanced(Plug(w, xt)) && RedFree(Plug(w, xt)) && RootColor(Plug(w, xt)) == Black
    ensures var pos := |LeftKeys(p)| + |Keys(zt.left)|;
      && pos < |Keys(Plug(p, zt))| && Keys(Plug(p, zt))[pos] == zt.key
      && Keys(Plug(w, xt)) == Drop(Keys(Plug(p, zt)), pos)
    ensures Ids(Plug(w, xt)) == Ids(Plug(p, zt)) - {z}
    ensures yColor == zt.color
  {
    FocusFacts(a, p, zt);
    x, yColor := c, a.nodes[z].color;
    TransplantFocus(a, p, zt, ct);
    r := Transplant(a, z, c);
    w, xt := p, ct;
    SpliceOut(p, zt, ct);
    SpliceKeys(p, zt, ct);
    SpliceIds(p, zt, ct);
  }

  /** Lines 340-356: `z` has two children.  Its successor `y`, the leftmost
      node of its right subtree, leaves its own position to its right child
      `x` and takes `z`'s position, colour and both subtrees.  The cursor
      returned is on `x`, with `y` already in `z`'s place above it; the colour
      returned is `y`'s own, which decides whether the fix-up runs. */
  method EraseSuccessor(a: RbTree, z: nat, ghost p: Path, ghost zt: Tree)
    returns (r: RbTree, x: nat, yColor: Color, ghost w: Path, ghost xt: Tree)
    requires Holds(a, Plug(p, zt)) && IsRedBlack(Plug(p, zt))
    requires zt.Node? && z == zt.id && zt.left.Node? && zt.right.Node?
    ensures Holds(r, Plug(w, xt)) && x == RootId(xt) && |r.nodes| == |a.nodes| && KeysKept(a, r)
    ensures xt.Leaf? && |w| > 0 ==> r.nodes[Nil].parent == w[0].id
    ensures yColor == Black ==> DelInv(w, xt)
    ensures yColor == Red ==> Balanced(Plug(w, xt)) && RedFree(Plug(w, xt)) && RootColor(Plug(w, xt)) == Black
    ensures var pos := |LeftKeys(p)| + |Keys(zt.left)|;
      && pos < |Keys(Plug(p, zt))| && Keys(Plug(p, zt))[pos] == zt.key
      && Keys(Plug(w, xt)) == Drop(Keys(Plug(p, zt)), pos)
    ensures Ids(Plug(w, xt)) == Ids(Plug(p, zt)) - {z}
    ensures yColor == Least(zt.right).color
  {
    FocusFacts(a, p, zt);
    ghost var f := RightOf(zt.color, zt.left, zt.id, zt.key);
    PlugCons(f, p, zt.right);
    var m: Option<nat>;
    ghost var q: Path, yt: Tree;
    m, q, yt := TreeMin(a, Some(a.nodes[z].right), [f] + p, zt.right);
    var y := m.value;
    LeftmostLeast(zt.right, q, yt);
    ghost var W, W' := SuccessorPath(p, zt, q, zt), SuccessorPath(p, zt, q, yt);
    SuccessorShape(p, zt, q, yt);
    assert W == q + ([f] + p);
    PlugAppend(q, [f] + p, yt);
    FocusFacts(a, W, yt);
    yColor := a.nodes[y].color;
    x := a.nodes[y].right;
    SpliceOut(W, yt, yt.right);
    Reshape(W, W', yt.right);
    SuccessorKeys(p, zt, q, yt);
    SuccessorIds(p, zt, q, yt);
    SuccessorView(p, zt, q, yt, yt.right);
    w, xt := W', yt.right;
    if y != a.nodes[z].right {
      r := MoveSuccessorDeep(a, z, y, p, zt, q, yt);
    } else {
      r := MoveSuccessorChild(a, z, y, p, zt);
    }
  }

  /** Lines 346-348 and 352-355, when `y` lies deeper than `z`'s right child:
      `y`'s right child takes `y`'s place, `y` takes `z`'s right subtree, then
      `z`'s place, left subtree and colour. */
  method MoveSuccessorDeep(a: RbTree, z: nat, y: nat, ghost p: Path, ghost zt: Tree, ghost q: Path, ghost yt: Tree)
    returns (r: RbTree)
    requires Holds(a, Plug(p, zt)) && zt.Node? && z == zt.id && zt.left.Node?
    requires Leftmost(zt.right, q, yt) && |q| > 0 && y == yt.id
    ensures Holds(r, Plug(p, Node(zt.color, zt.left, y, yt.key, Plug(q, yt.right))))
    ensures yt.right.Leaf? ==> r.nodes[Nil].parent == q[0].id
    ensures |r.nodes| == |a.nodes| && KeysKept(a, r)
  {
    // Line 346.
    FocusRecord(a, p, zt);
    CutSuccessor(a, p, zt, q, yt);
    var a1 := Transplant(a, y, a.nodes[y].right);
    // Lines 347-348 and 352.
    ghost var zt' := Node(zt.color, zt.left, z, zt.key, Plug(q, yt.right));
    Graft(a1, p, zt', y);
    var b1 := SetRight(a1, y, a1.nodes[z].right);
    var b2 := SetParent(b1, b1.nodes[y].right, y);
    var b3 := Transplant(b2, z, y);
    // Lines 353-355.
    ghost var Y := Node(yt.color, Leaf, y, yt.key, Plug(q, yt.right));
    GraftedIds(a1, p, zt', Y);
    AttachLeft(b3, p, Y, zt.left, z);
    var c1 := SetLeft(b3, y, b3.nodes[z].left);
    var c2 := SetParent(c1, c1.nodes[y].left, y);
    r := SetColor(c2, y, c2.nodes[z].color);
    KeysKeptTrans(a, a1, b1);
    KeysKeptTrans(a, b1, b2);
    KeysKeptTrans(a, b2, b3);
    KeysKeptTrans(a, b3, c1);
    KeysKeptTrans(a, c1, c2);
    KeysKeptTrans(a, c2, r);
  }

  /** Line 346 when `y` lies deeper than `z`'s right child: `y`'s right child
      takes `y`'s place, so the store holds `z`'s tree with `y` cut out, and
      `y`'s and `z`'s own records are not written. */
  lemma {:induction false} CutSuccessor(a: RbTree, p: Path, zt: Tree, q: Path, yt: Tree)
    requires Holds(a, Plug(p, zt)) && zt.Node? && Leftmost(zt.right, q, yt) && |q| > 0
    ensures yt.id < |a.nodes| && a.nodes[yt.id].right < |a.nodes| && a.nodes[yt.id].parent < |a.nodes|
    ensures zt.id < |a.nodes|
    ensures var y := yt.id;
      var a1 := Transplant(a, y, a.nodes[y].right);
      var zt' := Node(zt.color, zt.left, zt.id, zt.key, Plug(q, yt.right));
      && Holds(a1, Plug(p, zt')) && zt'.right.Node?
      && 0 < y && y != zt.id && y !in Ids(Plug(p, zt'))
      && a1.nodes[y] == a.nodes[y] && a1.nodes[zt.id] == a.nodes[zt.id]
      && a.nodes[y] == NodeRec(Nil, RootId(yt.right), q[0].id, yt.color, yt.key)
      && (yt.right.Leaf? ==> a1.nodes[Nil].parent == q[0].id)
  {
    var z, y := zt.id, yt.id;
    var f := RightOf(zt.color, zt.left, z, zt.key);
    var W := q + [f] + p;
    var zt' := Node(zt.color, zt.left, z, zt.key, Plug(q, yt.right));
    PlugCons(f, p, zt.right);
    assert W == q + ([f] + p);
    PlugAppend(q, [f] + p, yt);
    FocusFacts(a, p, zt);
    FocusFacts(a, W, yt);
    SuccessorView(p, zt, q, zt, yt.right);
    assert Plug(W, yt.right) == Plug(p, zt');
    TransplantFocus(a, W, yt, yt.right);
    var a1 := Transplant(a, y, a.nodes[y].right);
    PlugRoot(q, yt.right);
    PlugIds(W, yt.right);
    PlugIds(q, yt);
    PlugIds(q, yt.right);
    assert q[0].id in PathIds(q);
    assert W[0] == q[0];
    assert y in Ids(yt);
    assert a1.nodes[y] == a.nodes[y] && a1.nodes[z] == a.nodes[z];
  }

  /** The slot facts `AttachLeft` needs once `y` has taken `z`'s place. */
  lemma {:induction false} GraftedIds(a: RbTree, p: Path, zt: Tree, Y: Tree)
    requires Holds(a, Plug(p, zt)) && zt.Node? && zt.left.Node? && Y.Node?
    requires Y.id !in Ids(Plug(p, zt)) && Y.right == zt.right && Y.left.Leaf?
    ensures Distinct(zt.left) && zt.id !in Ids(zt.left) && zt.id != Y.id
    ensures Ids(zt.left) !! Ids(Plug(p, Y))
  {
    FocusFacts(a, p, zt);
    PlugIds(p, zt);
    PlugIds(p, Y);
  }

  /** Lines 350 and 352-355, when `y` is `z`'s right child: `x`'s parent link
      is set to `y` (the sentinel's too), then `y` takes `z`'s place, left
      subtree and colour, keeping its own right subtree. */
  method MoveSuccessorChild(a: RbTree, z: nat, y: nat, ghost p: Path, ghost zt: Tree) returns (r: RbTree)
    requires Holds(a, Plug(p, zt)) && zt.Node? && z == zt.id && zt.left.Node?
    requires zt.right.Node? && zt.right.left.Leaf? && y == zt.right.id
    ensures var yt := zt.right;
      Holds(r, Plug(p, Node(zt.color, zt.left, y, yt.key, yt.right)))
    ensures zt.right.right.Leaf? ==> r.nodes[Nil].parent == y
    ensures |r.nodes| == |a.nodes| && KeysKept(a, r)
  {
    ghost var yt := zt.right;
    ghost var W2 := [RightOf(yt.color, Leaf, y, yt.key), RightOf(zt.color, zt.left, z, zt.key)] + p;
    PlugCons(RightOf(zt.color, zt.left, z, zt.key), p, yt);
    PlugCons(RightOf(yt.color, Leaf, y, yt.key), [RightOf(zt.color, zt.left, z, zt.key)] + p, yt.right);
    assert W2 == [RightOf(yt.color, Leaf, y, yt.key)] + ([RightOf(zt.color, zt.left, z, zt.key)] + p);
    FocusFacts(a, p, zt);
    // Line 350.
    SetParentFocus(a, W2, yt.right);
    var a1 := SetParent(a, a.nodes[y].right, y);
    // Line 352.
    TransplantFocus(a1, p, zt, yt);
    var a2 := Transplant(a1, z, y);
    // Lines 353-355.
    ReprIds(a.nodes, zt, ParentId(p));
    assert ParentId(p) !in Ids(zt) by {
      if |p| > 0 { assert p[0].id in PathIds(p); }
    }
    ReprFrame(a.nodes, a2.nodes, zt.left, z);
    PlugIds(p, yt);
    AttachLeft(a2, p, yt, zt.left, z);
    var c1 := SetLeft(a2, y, a2.nodes[z].left);
    var c2 := SetParent(c1, c1.nodes[y].left, y);
    r := SetColor(c2, y, c2.nodes[z].color);
    KeysKeptTrans(a, a1, a2);
    KeysKeptTrans(a, a2, c1);
    KeysKeptTrans(a, c1, c2);
    KeysKeptTrans(a, c2, r);
  }
}
