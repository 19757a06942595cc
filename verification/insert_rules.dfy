/** The steps of `rbtree_insert_fixup` on values.

    The loop of the fix-up keeps a cursor on a red node.  Everything below the
    cursor is a valid red-black subtree, the black heights along the path agree,
    and the only edge that may join two red nodes is the one from the cursor to
    its parent.  Each case of the loop is a function from one cursor to the next;
    the lemmas show that each keeps that invariant, keeps the keys and slots of
    the whole tree, and that the invariant with a black parent gives a valid
    red-black tree once the root is blackened. */
module InsertRules {
  import opened Trees
  import opened Paths

  /** The loop invariant of `rbtree_insert_fixup`. */
  ghost predicate InsInv(p: Path, s: Tree)
  {
    && s.Node? && s.color == Red && RedFree(s) && Balanced(s)
    && PathBalanced(p, BlackHeight(s)) && PathRedFree(p, Black) && TopBlack(p)
  }

  /** The parent and the grandparent lie on different sides (cases 2 then 3). */
  predicate Inner(p: Path)
  {
    |p| >= 2 && p[0].LeftOf? != p[1].LeftOf?
  }

  /** The grandparent's other child, read through the sentinel when empty. */
  function UncleColor(p: Path): Color
    requires |p| >= 2
  {
    RootColor(p[1].sibling)
  }

  /** Case 1, red uncle: parent and uncle turn black, the grandparent turns red
      and becomes the cursor. */
  function RecolorUp(p: Path, s: Tree): (r: Cursor)
    requires |p| >= 2
    ensures |r.path| == |p| - 2 && r.focus.Node? && r.focus.id == p[1].id
    ensures Keys(Plug(r.path, r.focus)) == Keys(Plug(p, s))
    ensures Ids(Plug(r.path, r.focus)) == Ids(Plug(p, s))
  {
    var par := Attach(p[0].(color := Black), s);
    var g := Attach(p[1].(color := Red, sibling := Blacken(p[1].sibling)), par);
    assert Keys(g) == Keys(Attach(p[1], Attach(p[0], s))) by {
      assert Keys(Blacken(p[1].sibling)) == Keys(p[1].sibling);
    }
    assert Ids(g) == Ids(Attach(p[1], Attach(p[0], s))) by {
      assert Ids(Blacken(p[1].sibling)) == Ids(p[1].sibling);
    }
    assert p[1..][1..] == p[2..];
    PlugSameKeys(p[2..], Attach(p[1], Attach(p[0], s)), g);
    PlugSameIds(p[2..], Attach(p[1], Attach(p[0], s)), g);
    Cursor(p[2..], g)
  }

  /** Case 2: the cursor moves to its parent, which is rotated down to the
      outer side; the cursor's old node takes the parent's place. */
  function RotateInner(p: Path, s: Tree): (r: Cursor)
    requires |p| >= 1 && s.Node?
    ensures |r.path| == |p| && r.path[1..] == p[1..] && r.focus.Node? && r.focus.id == p[0].id
    ensures r.path[0].id == s.id
    ensures p[0].RightOf? ==> Plug(r.path, r.focus) == Plug(p[1..], RotateLeft(Attach(p[0], s)))
    ensures p[0].LeftOf? ==> Plug(r.path, r.focus) == Plug(p[1..], RotateRight(Attach(p[0], s)))
  {
    var r := match p[0]
      case RightOf(c, l, i, k) =>
        Cursor([LeftOf(s.color, s.id, s.key, s.right)] + p[1..], Node(c, l, i, k, s.left))
      case LeftOf(c, i, k, u) =>
        Cursor([RightOf(s.color, s.left, s.id, s.key)] + p[1..], Node(c, s.right, i, k, u));
    PlugCons(r.path[0], p[1..], r.focus);
    assert ([r.path[0]] + p[1..])[1..] == p[1..];
    r
  }

  /** Case 3: the parent turns black, the grandparent red, and the grandparent
      is rotated down to the uncle's side; the cursor stays where it is. */
  function RotateOuter(p: Path, s: Tree): (r: Cursor)
    requires |p| >= 2 && p[0].LeftOf? == p[1].LeftOf?
    ensures |r.path| == |p| - 1 && r.focus == s && r.path[0].id == p[0].id
    ensures var g := Attach(p[1].(color := Red), Attach(p[0].(color := Black), s));
      && (p[0].LeftOf? ==> Plug(r.path, r.focus) == Plug(p[2..], RotateRight(g)))
      && (p[0].RightOf? ==> Plug(r.path, r.focus) == Plug(p[2..], RotateLeft(g)))
  {
    var f0, f1 := p[0], p[1];
    var r :=
      if f0.LeftOf? then
        Cursor([LeftOf(Black, f0.id, f0.key, Node(Red, f0.sibling, f1.id, f1.key, f1.sibling))] + p[2..], s)
      else
        Cursor([RightOf(Black, Node(Red, f1.sibling, f1.id, f1.key, f0.sibling), f0.id, f0.key)] + p[2..], s);
    PlugCons(r.path[0], p[2..], s);
    r
  }

  /** The rotations of cases 2 and 3 keep the keys and slots of the whole tree. */
  lemma {:induction false} RotateInnerContents(p: Path, s: Tree)
    requires |p| >= 1 && s.Node?
    ensures var r := RotateInner(p, s);
      Keys(Plug(r.path, r.focus)) == Keys(Plug(p, s)) && Ids(Plug(r.path, r.focus)) == Ids(Plug(p, s))
  {
    var P := Attach(p[0], s);
    assert Plug(p, s) == Plug(p[1..], P);
    if p[0].RightOf? {
      PlugSameKeys(p[1..], P, RotateLeft(P));
      PlugSameIds(p[1..], P, RotateLeft(P));
    } else {
      PlugSameKeys(p[1..], P, RotateRight(P));
      PlugSameIds(p[1..], P, RotateRight(P));
    }
  }

  lemma {:induction false} RotateOuterContents(p: Path, s: Tree)
    requires |p| >= 2 && p[0].LeftOf? == p[1].LeftOf?
    ensures var r := RotateOuter(p, s);
      Keys(Plug(r.path, r.focus)) == Keys(Plug(p, s)) && Ids(Plug(r.path, r.focus)) == Ids(Plug(p, s))
  {
    var G := Attach(p[1], Attach(p[0], s));
    var g := Attach(p[1].(color := Red), Attach(p[0].(color := Black), s));
    assert Plug(p, s) == Plug(p[2..], G) by {
      assert p[1..][0] == p[1] && p[1..][1..] == p[2..];
    }
    assert Keys(g) == Keys(G) && Ids(g) == Ids(G);
    if p[0].LeftOf? {
      PlugSameKeys(p[2..], G, RotateRight(g));
      PlugSameIds(p[2..], G, RotateRight(g));
    } else {
      PlugSameKeys(p[2..], G, RotateLeft(g));
      PlugSameIds(p[2..], G, RotateLeft(g));
    }
  }

  // ---------------------------------------------------------------------------
  // The invariant

  /** With a red parent the grandparent exists and is black. */
  lemma {:induction false} RedParent(p: Path, s: Tree)
    requires InsInv(p, s) && ParentColor(p) == Red
    ensures |p| >= 2 && p[0].color == Red && p[1].color == Black
    ensures PathRedFree(p[1..], Red) && PathRedFree(p[2..], Black)
    ensures PathBalanced(p[1..], BlackHeight(s)) && PathBalanced(p[2..], BlackHeight(s) + 1)
    ensures BlackHeight(p[0].sibling) == BlackHeight(s) && BlackHeight(p[1].sibling) == BlackHeight(s)
    ensures RootColor(p[0].sibling) == Black && RedFree(p[0].sibling) && RedFree(p[1].sibling)
    ensures Balanced(p[0].sibling) && Balanced(p[1].sibling)
  {
    assert PathRedFree(p[1..], Red);
    assert p[1..][0] == p[1] && p[1..][1..] == p[2..];
    assert PathBalanced(p[1..], BlackHeight(s));
  }

  lemma {:induction false} RecolorUpKeeps(p: Path, s: Tree)
    requires InsInv(p, s) && ParentColor(p) == Red
    requires |p| >= 2 && UncleColor(p) == Red
    ensures InsInv(RecolorUp(p, s).path, RecolorUp(p, s).focus)
  {
    RedParent(p, s);
    assert p[1..][0] == p[1] && p[1..][1..] == p[2..];
    var r := RecolorUp(p, s);
    assert BlackHeight(Blacken(p[1].sibling)) == BlackHeight(p[1].sibling) + 1;
    assert TopBlack(p[2..]) by {
      if |p| > 2 { assert p[2..][|p[2..]| - 1] == p[|p| - 1]; }
    }
  }

  lemma {:induction false} RotateInnerKeeps(p: Path, s: Tree)
    requires InsInv(p, s) && ParentColor(p) == Red && Inner(p)
    ensures var r := RotateInner(p, s);
      && InsInv(r.path, r.focus) && ParentColor(r.path) == Red && !Inner(r.path)
      && |r.path| >= 2 && UncleColor(r.path) == UncleColor(p)
  {
    RedParent(p, s);
    var r := RotateInner(p, s);
    assert r.path[1..] == p[1..] && r.path[1] == p[1];
    assert TopBlack(r.path) by {
      assert r.path[|r.path| - 1] == p[|p| - 1];
    }
  }

  lemma {:induction false} RotateOuterKeeps(p: Path, s: Tree)
    requires InsInv(p, s) && ParentColor(p) == Red && |p| >= 2 && !Inner(p) && UncleColor(p) == Black
    ensures var r := RotateOuter(p, s);
      InsInv(r.path, r.focus) && ParentColor(r.path) == Black
  {
    RedParent(p, s);
    assert p[1..][0] == p[1] && p[1..][1..] == p[2..];
    var r := RotateOuter(p, s);
    assert r.path[1..] == p[2..];
    assert TopBlack(r.path) by {
      if |p| > 2 { assert r.path[|r.path| - 1] == p[|p| - 1]; }
    }
  }

  /** A black parent ends the loop: blackening the root gives a valid
      red-black tree with the same keys. */
  lemma {:induction false} InsertDone(p: Path, s: Tree)
    requires InsInv(p, s) && ParentColor(p) == Black
    ensures var t := Plug(p, s);
      && t.Node? && Balanced(Blacken(t)) && RedFree(Blacken(t)) && RootColor(Blacken(t)) == Black
      && Keys(Blacken(t)) == Keys(t) && Ids(Blacken(t)) == Ids(t)
  {
    var t := Plug(p, s);
    PlugBalanced(p, s);
    PlugRedFree(p, s);
    PlugRoot(p, s);
    if |p| > 0 {
      assert PathRedFree(p, Red);
      assert Blacken(t) == t;
    }
  }

  // ---------------------------------------------------------------------------
  // Where the new node goes

  /** The descent of `rbtree_insert` keeps every key before the cursor smaller
      than the new key and every key after it at least as large. */
  ghost predicate Fits(p: Path, key: int)
  {
    (forall x | x in LeftKeys(p) :: x < key) && (forall x | x in RightKeys(p) :: key <= x)
  }

  /** One step of the descent keeps `Fits`: it goes right past a smaller key
      and left past a key at least as large. */
  lemma {:induction false} DescendFits(p: Path, s: Tree, key: int)
    requires Sorted(Keys(Plug(p, s))) && s.Node? && Fits(p, key)
    ensures s.key < key ==> Fits([RightOf(s.color, s.left, s.id, s.key)] + p, key)
    ensures key <= s.key ==> Fits([LeftOf(s.color, s.id, s.key, s.right)] + p, key)
  {
    PlugKeys(p, s);
    var L, A, B, R := LeftKeys(p), Keys(s.left), Keys(s.right), RightKeys(p);
    assert L + Keys(s) + R == L + A + [s.key] + B + R;
    SortedAround(L, A, s.key, B, R);
    var fr, fl := RightOf(s.color, s.left, s.id, s.key), LeftOf(s.color, s.id, s.key, s.right);
    assert ([fr] + p)[1..] == p && ([fl] + p)[1..] == p;
    assert LeftKeys([fr] + p) == L + (A + [s.key]) && RightKeys([fr] + p) == R;
    assert LeftKeys([fl] + p) == L && RightKeys([fl] + p) == [s.key] + B + R;
  }

  /** In a sorted sequence the keys on each side of a position are on the
      matching side of the key there. */
  lemma {:induction false} SortedAround(L: seq<int>, A: seq<int>, k: int, B: seq<int>, R: seq<int>)
    requires Sorted(L + A + [k] + B + R)
    ensures forall x | x in A :: x <= k
    ensures forall x | x in B :: k <= x
  {
    var all := L + A + [k] + B + R;
    assert all[|L| + |A|] == k;
    forall x | x in A ensures x <= k {
      var j :| 0 <= j < |A| && A[j] == x;
      assert all[|L| + j] == x;
    }
    forall x | x in B ensures k <= x {
      var j :| 0 <= j < |B| && B[j] == x;
      assert all[|L| + |A| + 1 + j] == x;
    }
  }

  /** Putting `key` anywhere adds exactly one `key` to the multiset. */
  lemma {:induction false} InsertMultiset(s: seq<int>, pos: nat, key: int)
    requires pos <= |s|
    ensures multiset(s[..pos] + [key] + s[pos..]) == multiset(s) + multiset{key}
  {
    assert s == s[..pos] + s[pos..];
  }

  /** A new red leaf at an empty position of a red-black tree satisfies the
      loop invariant of the fix-up. */
  lemma {:induction false} InsertStart(p: Path, id: nat, key: int)
    requires IsRedBlack(Plug(p, Leaf))
    ensures InsInv(p, Node(Red, Leaf, id, key, Leaf))
  {
    PlugBalanced(p, Leaf);
    PlugRedFree(p, Leaf);
    PlugRoot(p, Leaf);
    PlugRedFree(p, Node(Red, Leaf, id, key, Leaf));
  }

  /** Placing the key where the descent stopped keeps the keys in order, puts
      it before every equal key, and adds exactly that key. */
  lemma {:induction false} InsertPlace(p: Path, id: nat, key: int)
    requires Sorted(Keys(Plug(p, Leaf))) && Fits(p, key)
    ensures var old_ := Keys(Plug(p, Leaf)); var new_ := Keys(Plug(p, Node(Red, Leaf, id, key, Leaf)));
      var pos := |LeftKeys(p)|;
      && pos <= |old_|
      && new_ == old_[..pos] + [key] + old_[pos..]
      && (forall j | 0 <= j < pos :: old_[j] < key)
      && (forall j | pos <= j < |old_| :: key <= old_[j])
      && Sorted(new_)
  {
    var L, R := LeftKeys(p), RightKeys(p);
    PlugKeys(p, Leaf);
    PlugKeys(p, Node(Red, Leaf, id, key, Leaf));
    var old_ := Keys(Plug(p, Leaf));
    assert old_ == L + R;
    assert old_[..|L|] == L && old_[|L|..] == R;
    forall j | 0 <= j < |L| ensures old_[j] < key {
      assert old_[j] == L[j] && L[j] in L;
    }
    forall j | |L| <= j < |old_| ensures key <= old_[j] {
      assert old_[j] == R[j - |L|] && R[j - |L|] in R;
    }
    assert Sorted(L) && Sorted(R) by {
      forall i, j | 0 <= i < j < |L| ensures L[i] <= L[j] { assert L[i] == old_[i] && L[j] == old_[j]; }
      forall i, j | 0 <= i < j < |R| ensures R[i] <= R[j] { assert R[i] == old_[|L| + i] && R[j] == old_[|L| + j]; }
    }
    SortedSplit(L, key, R);
  }
}
