/** How `rbtree_erase` removes a node, on values.

    The erased node `z` either has an empty child, and is spliced out with its
    other child `x` taking its place, or has two children, and its in-order
    successor `y` (the minimum of the right subtree, which has an empty left
    child) is spliced out of its own place and then takes over `z`'s place and
    colour.  Either way one node with an empty child leaves the tree, and the
    fix-up starts at the subtree `x` that replaced it. */
module EraseRules {
  import opened Trees
  import opened Paths
  import opened DeleteRules

  /** `u` has an empty child and `x` is its other child. */
  predicate OneChild(u: Tree, x: Tree)
  {
    u.Node? && ((u.left.Leaf? && x == u.right) || (u.right.Leaf? && x == u.left))
  }

  /** Splicing out a node with an empty child.  A black node leaves `x` one
      black short of the rest of the tree, which is the fix-up's invariant; a
      red node can only have had two empty children, and the tree without it
      is still balanced and free of red-red edges. */
  lemma {:induction false} SpliceOut(w: Path, u: Tree, x: Tree)
    requires IsRedBlack(Plug(w, u)) && OneChild(u, x)
    ensures u.color == Black ==> DelInv(w, x)
    ensures u.color == Red ==>
      && x.Leaf? && |w| > 0
      && Balanced(Plug(w, x)) && RedFree(Plug(w, x)) && RootColor(Plug(w, x)) == Black
  {
    PlugBalanced(w, u);
    PlugRedFree(w, u);
    PlugRoot(w, u);
    PlugBalanced(w, x);
    PlugRedFree(w, x);
    PlugRoot(w, x);
    assert Balanced(x) && RedFree(x) && BlackHeight(x) == 0;
    if u.color == Black {
      BlackenRedFree(x);
      assert BlackHeight(u) == 1;
    } else {
      assert x.Node? ==> BlackHeight(x) >= 1;
      PathRedFreeBlack(w, Red);
    }
  }

  /** Two paths that differ only in the slots and keys of their frames. */
  predicate SameShape(p: Path, p': Path)
  {
    && |p| == |p'|
    && forall i | 0 <= i < |p| ::
         p[i].color == p'[i].color && p[i].sibling == p'[i].sibling && p[i].LeftOf? == p'[i].LeftOf?
  }

  /** The colour invariants do not look at slots or keys. */
  lemma {:induction false} ShapePath(p: Path, p': Path, h: nat, c: Color)
    requires SameShape(p, p')
    ensures PathBalanced(p, h) == PathBalanced(p', h)
    ensures PathRedFree(p, c) == PathRedFree(p', c)
    ensures TopBlack(p) == TopBlack(p')
    decreases |p|
  {
    if |p| > 0 {
      assert SameShape(p[1..], p'[1..]) by {
        forall i | 0 <= i < |p| - 1
          ensures p[1..][i].color == p'[1..][i].color && p[1..][i].sibling == p'[1..][i].sibling
        {
          assert p[1..][i] == p[i + 1] && p'[1..][i] == p'[i + 1];
        }
      }
      ShapePath(p[1..], p'[1..], h + Weight(p[0].color), p[0].color);
    }
  }

  /** Relabelling the path keeps the fix-up's invariant and the whole-tree
      colour invariants. */
  lemma {:induction false} Reshape(p: Path, p': Path, x: Tree)
    requires SameShape(p, p')
    ensures DelInv(p, x) ==> DelInv(p', x)
    ensures Balanced(Plug(p, x)) ==> Balanced(Plug(p', x))
    ensures RedFree(Plug(p, x)) ==> RedFree(Plug(p', x))
    ensures RootColor(Plug(p', x)) == RootColor(Plug(p, x))
  {
    ShapePath(p, p', BlackHeight(x) + 1, Black);
    ShapePath(p, p', BlackHeight(x), RootColor(x));
    PlugBalanced(p, x);
    PlugBalanced(p', x);
    PlugRedFree(p, x);
    PlugRedFree(p', x);
    PlugRoot(p, x);
    PlugRoot(p', x);
  }

  /** Removing the element at `pos` from a sequence. */
  function Drop(s: seq<int>, pos: nat): (r: seq<int>)
    requires pos < |s|
    ensures |r| == |s| - 1
  {
    s[..pos] + s[pos + 1..]
  }

  lemma {:induction false} SortedDrop(s: seq<int>, pos: nat)
    requires pos < |s| && Sorted(s)
    ensures Sorted(Drop(s, pos))
  {
    var r := Drop(s, pos);
    forall i, j | 0 <= i < j < |r| ensures r[i] <= r[j] {
      var i', j' := if i < pos then i else i + 1, if j < pos then j else j + 1;
      assert r[i] == s[i'] by { if i < pos { assert r[i] == s[..pos][i]; } else { assert r[i] == s[pos + 1..][i - pos]; } }
      assert r[j] == s[j'] by { if j < pos { assert r[j] == s[..pos][j]; } else { assert r[j] == s[pos + 1..][j - pos]; } }
    }
  }

  /** Dropping a position removes exactly the key found there. */
  lemma {:induction false} DropMultiset(s: seq<int>, pos: nat)
    requires pos < |s|
    ensures multiset(Drop(s, pos)) == multiset(s) - multiset{s[pos]}
  {
    assert s == s[..pos] + [s[pos]] + s[pos + 1..];
  }

  /** In a sorted sequence made by putting `key` at `pos`, before every equal
      key, dropping any position that holds `key` gives back the sequence
      before the insertion. */
  lemma {:induction false} DropInserted(s: seq<int>, pos: nat, key: int, j: nat)
    requires pos <= |s| && Sorted(s[..pos] + [key] + s[pos..])
    requires forall i | 0 <= i < pos :: s[i] < key
    requires j <= |s| && (s[..pos] + [key] + s[pos..])[j] == key
    ensures Drop(s[..pos] + [key] + s[pos..], j) == s
  {
    var s' := s[..pos] + [key] + s[pos..];
    assert forall i | 0 <= i < pos :: s'[i] == s[i];
    assert forall i | pos < i <= |s| :: s'[i] == s[i - 1];
    assert pos <= j;
    var d := Drop(s', j);
    forall i | 0 <= i < |s| ensures d[i] == s[i] {
      if i < pos {
        assert d[i] == s'[..j][i];
      } else if i < j {
        assert d[i] == s'[..j][i] == s'[i];
        assert s'[pos] <= s'[i] <= s'[j];
        assert s'[pos] <= s'[i + 1] <= s'[j];
      } else {
        assert d[i] == s'[j + 1..][i - j] == s'[i + 1];
      }
    }
  }

  /** Removing the middle element of `A + [k] + B`. */
  lemma {:induction false} DropMiddle(A: seq<int>, k: int, B: seq<int>, T: seq<int>, T': seq<int>)
    requires T == A + [k] + B && T' == A + B
    ensures |A| < |T| && T[|A|] == k && T' == Drop(T, |A|)
  {
    assert T[..|A|] == A && T[|A| + 1..] == B;
  }

  /** Splicing out a node with an empty child removes exactly its key. */
  lemma {:induction false} SpliceKeys(p: Path, u: Tree, x: Tree)
    requires OneChild(u, x)
    ensures var t, t' := Plug(p, u), Plug(p, x); var pos := |LeftKeys(p)| + |Keys(u.left)|;
      pos < |Keys(t)| && Keys(t)[pos] == u.key && Keys(t') == Drop(Keys(t), pos)
  {
    var A, B := LeftKeys(p) + Keys(u.left), Keys(u.right) + RightKeys(p);
    SpliceKeysBefore(p, u);
    SpliceKeysAfter(p, u, x);
    DropMiddle(A, u.key, B, Keys(Plug(p, u)), Keys(Plug(p, x)));
  }

  lemma {:induction false} SpliceKeysBefore(p: Path, u: Tree)
    requires u.Node?
    ensures Keys(Plug(p, u)) == LeftKeys(p) + Keys(u.left) + [u.key] + (Keys(u.right) + RightKeys(p))
  {
    PlugKeys(p, u);
  }

  lemma {:induction false} SpliceKeysAfter(p: Path, u: Tree, x: Tree)
    requires OneChild(u, x)
    ensures Keys(Plug(p, x)) == LeftKeys(p) + Keys(u.left) + (Keys(u.right) + RightKeys(p))
  {
    PlugKeys(p, x);
    if u.left.Leaf? {
      assert Keys(x) == Keys(u.right);
    } else {
      assert Keys(x) == Keys(u.left);
    }
  }

  /** Splicing out a node with an empty child removes exactly its slot. */
  lemma {:induction false} SpliceIds(p: Path, u: Tree, x: Tree)
    requires OneChild(u, x) && Distinct(Plug(p, u))
    ensures Distinct(Plug(p, x)) && Ids(Plug(p, x)) == Ids(Plug(p, u)) - {u.id}
  {
    PlugDistinct(p, u);
    PlugDistinct(p, x);
    PlugIds(p, u);
    PlugIds(p, x);
  }

  /** `u` is the leftmost node of `r`, reached from `r`'s root through the
      left-only path `q`.  The successor of a node with two children is the
      leftmost node of its right subtree. */
  predicate Leftmost(r: Tree, q: Path, u: Tree)
  {
    r == Plug(q, u) && AllLeft(q) && u.Node? && u.left.Leaf?
  }
  /** A leftmost focus is the node `Least` finds. */
  lemma {:induction false} LeftmostLeast(r: Tree, q: Path, u: Tree)
    requires Leftmost(r, q, u)
    ensures r.Node? && u == Least(r)
    decreases |q|
  {
    PlugRoot(q, u);
    if |q| > 0 {
      var last := |q| - 1;
      assert q == q[..last] + [q[last]];
      PlugAppend(q[..last], [q[last]], u);
      assert r == Attach(q[last], Plug(q[..last], u));
      assert q[last].LeftOf?;
      PlugRoot(q[..last], u);
      LeftmostLeast(r.left, q[..last], u);
    }
  }


  /** The path to the successor inside the whole tree, before and after `y`
      has taken `z`'s place. */
  function SuccessorPath(p: Path, z: Tree, q: Path, y: Tree): Path
    requires z.Node? && y.Node?
  {
    q + [RightOf(z.color, z.left, y.id, y.key)] + p
  }

  lemma {:induction false} SuccessorShape(p: Path, z: Tree, q: Path, y: Tree)
    requires z.Node? && y.Node?
    ensures SuccessorPath(p, z, q, z) == q + ([RightOf(z.color, z.left, z.id, z.key)] + p)
    ensures SameShape(SuccessorPath(p, z, q, z), SuccessorPath(p, z, q, y))
    ensures ParentId(SuccessorPath(p, z, q, y)) == (if |q| == 0 then y.id else q[0].id)
  {
    var w, w' := SuccessorPath(p, z, q, z), SuccessorPath(p, z, q, y);
    assert w == q + ([RightOf(z.color, z.left, z.id, z.key)] + p);
    forall i | 0 <= i < |w|
      ensures w[i].color == w'[i].color && w[i].sibling == w'[i].sibling && w[i].LeftOf? == w'[i].LeftOf?
    {
      if i < |q| {
        assert w[i] == q[i] && w'[i] == q[i];
      } else if i > |q| {
        assert w[i] == p[i - |q| - 1] && w'[i] == p[i - |q| - 1];
      }
    }
  }

  /** Both ways of looking at the tree with the successor cut out of its place:
      from `z` above, and from the successor's subtree `x` below. */
  lemma {:induction false} SuccessorView(p: Path, z: Tree, q: Path, y: Tree, x: Tree)
    requires z.Node? && y.Node? && AllLeft(q)
    ensures Plug(SuccessorPath(p, z, q, y), x) == Plug(p, Node(z.color, z.left, y.id, y.key, Plug(q, x)))
  {
    var f := RightOf(z.color, z.left, y.id, y.key);
    PlugAppend(q, [f] + p, x);
    PlugCons(f, p, Plug(q, x));
    assert q + [f] + p == q + ([f] + p);
  }

  /** Moving the successor into `z`'s place removes exactly `z`'s key: `y`'s
      key takes `z`'s position in the order and leaves its own. */
  lemma {:induction false} SuccessorKeys(p: Path, z: Tree, q: Path, u: Tree)
    requires z.Node? && Leftmost(z.right, q, u)
    ensures var t, t' := Plug(p, z), Plug(p, Node(z.color, z.left, u.id, u.key, Plug(q, u.right)));
      var pos := |LeftKeys(p)| + |Keys(z.left)|;
      pos < |Keys(t)| && Keys(t)[pos] == z.key && Keys(t') == Drop(Keys(t), pos)
  {
    var z' := Node(z.color, z.left, u.id, u.key, Plug(q, u.right));
    var A, B := LeftKeys(p) + Keys(z.left), Keys(z.right) + RightKeys(p);
    SpliceKeysBefore(p, z);
    SuccessorKeysAfter(p, z, q, u);
    DropMiddle(A, z.key, B, Keys(Plug(p, z)), Keys(Plug(p, z')));
  }

  lemma {:induction false} SuccessorKeysAfter(p: Path, z: Tree, q: Path, u: Tree)
    requires z.Node? && Leftmost(z.right, q, u)
    ensures Keys(Plug(p, Node(z.color, z.left, u.id, u.key, Plug(q, u.right)))) ==
      LeftKeys(p) + Keys(z.left) + (Keys(z.right) + RightKeys(p))
  {
    var X := Keys(Plug(q, u.right));
    LeftmostKeys(z.right, q, u);
    PlugKeys(p, Node(z.color, z.left, u.id, u.key, Plug(q, u.right)));
    var L, K, R := LeftKeys(p), Keys(z.left), RightKeys(p);
    assert L + (K + [u.key] + X) + R == L + K + (([u.key] + X) + R);
  }

  /** The leftmost key comes first; the rest are those of the tree with the
      leftmost node cut out. */
  lemma {:induction false} LeftmostKeys(r: Tree, q: Path, u: Tree)
    requires Leftmost(r, q, u)
    ensures Keys(r) == [u.key] + Keys(Plug(q, u.right))
  {
    PlugKeys(q, u);
    PlugKeys(q, u.right);
    AllLeftKeys(q);
    var X, RK := Keys(u.right), RightKeys(q);
    calc {
      Keys(r);
      [] + ([] + [u.key] + X) + RK;
      { assert [] + ([] + [u.key] + X) + RK == [u.key] + (X + RK); }
      [u.key] + (X + RK);
      { assert [] + X + RK == X + RK; }
      [u.key] + Keys(Plug(q, u.right));
    }
  }

  /** Moving the successor into `z`'s place removes exactly `z`'s slot. */
  lemma {:induction false} SuccessorIds(p: Path, z: Tree, q: Path, u: Tree)
    requires z.Node? && Leftmost(z.right, q, u) && Distinct(Plug(p, z))
    ensures var t, t' := Plug(p, z), Plug(p, Node(z.color, z.left, u.id, u.key, Plug(q, u.right)));
      Distinct(t') && Ids(t') == Ids(t) - {z.id}
  {
    var x := u.right;
    var z' := Node(z.color, z.left, u.id, u.key, Plug(q, x));
    PlugDistinct(p, z);
    PlugDistinct(p, z');
    PlugIds(p, z);
    PlugIds(p, z');
    PlugDistinct(q, u);
    PlugDistinct(q, x);
    PlugIds(q, u);
    PlugIds(q, x);
    assert Ids(u) == {u.id} + Ids(x);
    assert Ids(z.right) == Ids(Plug(q, x)) + {u.id};
    assert u.id in Ids(z.right);
    assert Ids(z') == Ids(z) - {z.id};
  }
}
