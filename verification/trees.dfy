/** Red-black trees as values.

    This is the abstraction of the node store: every node of a `Tree` carries
    the slot number (`id`) of the record that stores it, so that the pointer
    structure kept in the store can be related to a shape that can be reasoned
    about by structural induction.  Slot 0 is the shared sentinel `nil`, so a
    real node never has id 0. */
module Trees {

  datatype Color = Red | Black

  datatype Tree = Leaf | Node(color: Color, left: Tree, id: nat, key: int, right: Tree)

  /** The slot a link to this subtree holds: the sentinel for an empty subtree. */
  function RootId(t: Tree): nat
  {
    if t.Leaf? then 0 else t.id
  }

  /** The colour read through a link to this subtree: the sentinel is black. */
  function RootColor(t: Tree): Color
  {
    if t.Leaf? then Black else t.color
  }

  /** Contribution of one node to a black height. */
  function Weight(c: Color): nat
  {
    if c == Black then 1 else 0
  }

  /** The in-order key sequence. */
  function Keys(t: Tree): seq<int>
  {
    match t
    case Leaf => []
    case Node(_, l, _, k, r) => Keys(l) + [k] + Keys(r)
  }

  function Ids(t: Tree): set<nat>
  {
    match t
    case Leaf => {}
    case Node(_, l, i, _, r) => Ids(l) + {i} + Ids(r)
  }

  function Size(t: Tree): nat
  {
    match t
    case Leaf => 0
    case Node(_, l, _, _, r) => Size(l) + 1 + Size(r)
  }

  function Height(t: Tree): nat
  {
    match t
    case Leaf => 0
    case Node(_, l, _, _, r) => 1 + (if Height(l) < Height(r) then Height(r) else Height(l))
  }

  /** No slot is used twice and no node uses the sentinel's slot. */
  predicate Distinct(t: Tree)
  {
    match t
    case Leaf => true
    case Node(_, l, i, _, r) =>
      && i != 0 && i !in Ids(l) && i !in Ids(r) && Ids(l) !! Ids(r)
      && Distinct(l) && Distinct(r)
  }

  /** Black nodes met on the leftmost path, the node itself included when black. */
  function BlackHeight(t: Tree): nat
  {
    match t
    case Leaf => 0
    case Node(c, l, _, _, _) => BlackHeight(l) + Weight(c)
  }

  /** Every path from a node down to the sentinel meets the same number of black nodes. */
  predicate Balanced(t: Tree)
  {
    match t
    case Leaf => true
    case Node(_, l, _, _, r) => BlackHeight(l) == BlackHeight(r) && Balanced(l) && Balanced(r)
  }

  /** No red node has a red child. */
  predicate RedFree(t: Tree)
  {
    match t
    case Leaf => true
    case Node(c, l, _, _, r) =>
      && (c == Red ==> RootColor(l) == Black && RootColor(r) == Black)
      && RedFree(l) && RedFree(r)
  }

  predicate Sorted(s: seq<int>)
  {
    forall i, j | 0 <= i < j < |s| :: s[i] <= s[j]
  }

  /** Search-tree order, stated node by node; equal keys may sit on either side. */
  predicate Bst(t: Tree)
  {
    match t
    case Leaf => true
    case Node(_, l, _, k, r) =>
      && (forall x | x in Keys(l) :: x <= k)
      && (forall x | x in Keys(r) :: k <= x)
      && Bst(l) && Bst(r)
  }

  /** The red-black invariants of a whole tree: order, uniform black height,
      no red-red edge, black root. */
  predicate IsRedBlack(t: Tree)
  {
    Sorted(Keys(t)) && Balanced(t) && RedFree(t) && RootColor(t) == Black
  }

  function Blacken(t: Tree): Tree
  {
    if t.Leaf? then Leaf else t.(color := Black)
  }

  /** The leftmost node, reached by following left links: it holds the
      first key in order. */
  function Least(t: Tree): (r: Tree)
    requires t.Node?
    ensures r.Node? && r.left.Leaf? && r.id in Ids(t) && r.key == Keys(t)[0]
  {
    if t.left.Leaf? then t else Least(t.left)
  }

  /** The rightmost node, reached by following right links: it holds the
      last key in order. */
  function Greatest(t: Tree): (r: Tree)
    requires t.Node?
    ensures r.Node? && r.right.Leaf? && r.id in Ids(t) && r.key == Keys(t)[|Keys(t)| - 1]
  {
    if t.right.Leaf? then t else Greatest(t.right)
  }

  /** `left_rotate` on values: the right child `y` of `x` takes `x`'s place,
      `x` becomes `y`'s left child and `y`'s former left subtree moves under `x`.
      Colours stay with their nodes. */
  function RotateLeft(t: Tree): (r: Tree)
    requires t.Node? && t.right.Node?
    ensures Keys(r) == Keys(t) && Ids(r) == Ids(t)
    ensures Distinct(t) ==> Distinct(r)
  {
    var y := t.right;
    assert Ids(y) == Ids(y.left) + {y.id} + Ids(y.right);
    assert Distinct(t) ==> Distinct(y) && Distinct(t.left);
    Node(y.color, Node(t.color, t.left, t.id, t.key, y.left), y.id, y.key, y.right)
  }

  /** `right_rotate` on values, the mirror image of `RotateLeft`. */
  function RotateRight(t: Tree): (r: Tree)
    requires t.Node? && t.left.Node?
    ensures Keys(r) == Keys(t) && Ids(r) == Ids(t)
    ensures Distinct(t) ==> Distinct(r)
  {
    var y := t.left;
    assert Ids(y) == Ids(y.left) + {y.id} + Ids(y.right);
    assert Distinct(t) ==> Distinct(y) && Distinct(t.right);
    Node(y.color, y.left, y.id, y.key, Node(t.color, y.right, t.id, t.key, t.right))
  }

  /** The two rotations undo each other. */
  lemma {:induction false} RotationsInverse(t: Tree)
    requires t.Node? && t.right.Node?
    ensures RotateRight(RotateLeft(t)) == t
  {
  }

  lemma {:induction false} SortedSplit(a: seq<int>, k: int, b: seq<int>)
    ensures Sorted(a + [k] + b) <==>
      Sorted(a) && Sorted(b) && (forall x | x in a :: x <= k) && (forall x | x in b :: k <= x)
  {
    var s := a + [k] + b;
    if Sorted(a) && Sorted(b) && (forall x | x in a :: x <= k) && (forall x | x in b :: k <= x) {
      forall i, j | 0 <= i < j < |s| ensures s[i] <= s[j] {
        if j < |a| {
        } else if i < |a| && j == |a| {
          assert s[i] in a;
        } else if i < |a| {
          assert s[i] in a && s[j] in b;
          assert s[i] <= k <= s[j];
        } else if i == |a| {
          assert s[j] == b[j - |a| - 1];
          assert s[j] in b;
        } else {
          assert s[i] == b[i - |a| - 1] && s[j] == b[j - |a| - 1];
        }
      }
    }
    if Sorted(s) {
      assert a == s[..|a|] && b == s[|a| + 1..];
      forall x | x in a ensures x <= k {
        var i :| 0 <= i < |a| && a[i] == x;
        assert s[i] == x && s[|a|] == k;
      }
      forall x | x in b ensures k <= x {
        var i :| 0 <= i < |b| && b[i] == x;
        assert s[|a| + 1 + i] == x && s[|a|] == k;
      }
    }
  }

  /** The node-by-node search-tree order holds exactly when the in-order key
      sequence is non-decreasing. */
  lemma {:induction false} BstIffSorted(t: Tree)
    ensures Bst(t) <==> Sorted(Keys(t))
  {
    match t
    case Leaf =>
    case Node(_, l, _, k, r) =>
      BstIffSorted(l);
      BstIffSorted(r);
      SortedSplit(Keys(l), k, Keys(r));
  }

  function Pow2(n: nat): nat
  {
    if n == 0 then 1 else 2 * Pow2(n - 1)
  }

  /** The balance guarantee: a red-black subtree is at most twice as high as its
      black height (plus one for a red root), and holds at least 2^bh - 1 nodes.
      With a black root this gives height <= 2 log2(size + 1). */
  lemma {:induction false} HeightBound(t: Tree)
    requires Balanced(t) && RedFree(t)
    ensures Height(t) <= 2 * BlackHeight(t) + (if RootColor(t) == Red then 1 else 0)
    ensures Pow2(BlackHeight(t)) <= Size(t) + 1
  {
    match t
    case Leaf =>
    case Node(c, l, _, _, r) =>
      HeightBound(l);
      HeightBound(r);
  }
}
