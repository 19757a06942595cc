/** The steps of `delete_fixup` on values.

    After a black node is spliced out, the subtree `x` that took its place is
    one black node short on every path through it.  The loop of the fix-up
    keeps a cursor on `x`: the subtree under the cursor is balanced and, once
    its root is blackened, free of red-red edges; the path above expects one
    more black node than the cursor's subtree provides.  Each case of the loop
    is a function from one cursor to the next; the lemmas show that each keeps
    the invariant and the keys and slots of the whole tree, and that the
    invariant at the end of the loop gives a valid red-black tree once the
    cursor is blackened. */
module DeleteRules {
  import opened Trees
  import opened Paths

  /** The loop invariant of `delete_fixup`. */
  ghost predicate DelInv(p: Path, s: Tree)
  {
    && Balanced(s) && PathBalanced(p, BlackHeight(s) + 1)
    && RedFree(Blacken(s)) && PathRedFree(p, Black) && TopBlack(p)
  }

  /** The loop condition: the cursor is not the root and is black. */
  predicate Running(p: Path, s: Tree)
  {
    |p| > 0 && RootColor(s) == Black
  }

  /** The sibling's child on the cursor's side. */
  function Near(p: Path): Tree
    requires |p| > 0 && p[0].sibling.Node?
  {
    if p[0].LeftOf? then p[0].sibling.left else p[0].sibling.right
  }

  /** The sibling's child away from the cursor. */
  function Far(p: Path): Tree
    requires |p| > 0 && p[0].sibling.Node?
  {
    if p[0].LeftOf? then p[0].sibling.right else p[0].sibling.left
  }

  /** Case I, red sibling: the sibling turns black, the parent red, and the
      parent is rotated down to the cursor's side.  The cursor keeps its
      subtree and gets the sibling's near child as its new sibling. */
  function SiblingRed(p: Path, s: Tree): (r: Cursor)
    requires |p| > 0 && p[0].sibling.Node?
    ensures r.focus == s && |r.path| == |p| + 1 && r.path[2..] == p[1..]
    ensures r.path[0].id == p[0].id && r.path[0].LeftOf? == p[0].LeftOf? && r.path[0].sibling == Near(p)
    ensures var g := Attach(p[0].(color := Red, sibling := p[0].sibling.(color := Black)), s);
      && (p[0].LeftOf? ==> Plug(r.path, r.focus) == Plug(p[1..], RotateLeft(g)))
      && (p[0].RightOf? ==> Plug(r.path, r.focus) == Plug(p[1..], RotateRight(g)))
  {
    var f, w := p[0], p[0].sibling;
    var f0, f1 :=
      if f.LeftOf? then LeftOf(Red, f.id, f.key, w.left) else RightOf(Red, w.right, f.id, f.key),
      if f.LeftOf? then LeftOf(Black, w.id, w.key, w.right) else RightOf(Black, w.left, w.id, w.key);
    PlugCons(f0, [f1] + p[1..], s);
    PlugCons(f1, p[1..], Attach(f0, s));
    assert ([f0, f1] + p[1..])[1..] == [f1] + p[1..];
    assert [f0, f1] + p[1..] == [f0] + ([f1] + p[1..]);
    Cursor([f0, f1] + p[1..], s)
  }

  /** Case II, black sibling with two black children: the sibling turns red
      and the cursor moves up to the parent. */
  function RecolorSibling(p: Path, s: Tree): (r: Cursor)
    requires |p| > 0 && p[0].sibling.Node?
    ensures |r.path| == |p| - 1 && r.focus.Node? && r.focus.id == p[0].id && r.focus.color == p[0].color
    ensures Plug(r.path, r.focus) == Plug([Flip(p[0], s)] + p[1..], p[0].sibling.(color := Red))
  {
    var f := p[0].(sibling := p[0].sibling.(color := Red));
    PlugCons(Flip(p[0], s), p[1..], p[0].sibling.(color := Red));
    Cursor(p[1..], Attach(f, s))
  }

  /** Case III, black sibling whose far child is black and near child red: the
      near child turns black, the sibling red, and the sibling is rotated away
      from the cursor.  The near child becomes the cursor's sibling. */
  function RotateSibling(p: Path, s: Tree): (r: Cursor)
    requires |p| > 0 && p[0].sibling.Node? && Near(p).Node?
    ensures r.focus == s && |r.path| == |p| && r.path[1..] == p[1..]
    ensures r.path[0].id == p[0].id && r.path[0].LeftOf? == p[0].LeftOf? && r.path[0].color == p[0].color
    ensures var w := p[0].sibling;
      && r.path[0].sibling.Node? && r.path[0].sibling.id == Near(p).id
      && (p[0].LeftOf? ==>
            Plug(r.path, r.focus) ==
            Plug([Flip(p[0], s)] + p[1..], RotateRight(w.(color := Red, left := Blacken(w.left)))))
      && (p[0].RightOf? ==>
            Plug(r.path, r.focus) ==
            Plug([Flip(p[0], s)] + p[1..], RotateLeft(w.(color := Red, right := Blacken(w.right)))))
  {
    var f, w, n := p[0], p[0].sibling, Near(p);
    var w' :=
      if f.LeftOf? then Node(Black, n.left, n.id, n.key, Node(Red, n.right, w.id, w.key, w.right))
      else Node(Black, Node(Red, w.left, w.id, w.key, n.left), n.id, n.key, n.right);
    var f' := f.(sibling := w');
    PlugCons(f', p[1..], s);
    PlugCons(Flip(p[0], s), p[1..], w');
    Cursor([f'] + p[1..], s)
  }

  /** Case IV, black sibling with a red far child: the sibling takes the
      parent's colour, the parent and the far child turn black, and the parent
      is rotated down to the cursor's side.  The loop then ends at the root. */
  function RotateParent(p: Path, s: Tree): (r: Cursor)
    requires |p| > 0 && p[0].sibling.Node? && Far(p).Node?
    ensures r.path == []
    ensures var f, w := p[0], p[0].sibling;
      && (f.LeftOf? ==>
            r.focus == Plug(p[1..], RotateLeft(Attach(f.(color := Black,
                                    sibling := w.(color := f.color, right := Blacken(w.right))), s))))
      && (f.RightOf? ==>
            r.focus == Plug(p[1..], RotateRight(Attach(f.(color := Black,
                                    sibling := w.(color := f.color, left := Blacken(w.left))), s))))
  {
    var f, w := p[0], p[0].sibling;
    var top :=
      if f.LeftOf? then Node(f.color, Node(Black, s, f.id, f.key, w.left), w.id, w.key, Blacken(w.right))
      else Node(f.color, Blacken(w.left), w.id, w.key, Node(Black, w.right, f.id, f.key, s));
    Cursor([], Plug(p[1..], top))
  }

  // ---------------------------------------------------------------------------
  // Keys and slots

  /** Looking at the parent through the sibling's frame gives the same tree. */
  lemma {:induction false} SiblingView(p: Path, s: Tree)
    requires |p| > 0
    ensures Plug([Flip(p[0], s)] + p[1..], p[0].sibling) == Plug(p, s)
    ensures Plug(p, s) == Plug(p[1..], Attach(p[0], s))
  {
    PlugCons(Flip(p[0], s), p[1..], p[0].sibling);
    FlipAttach(p[0], s);
  }

  lemma {:induction false} SiblingRedContents(p: Path, s: Tree)
    requires |p| > 0 && p[0].sibling.Node?
    ensures var t := Plug(p, s); var r := SiblingRed(p, s);
      Keys(Plug(r.path, r.focus)) == Keys(t) && Ids(Plug(r.path, r.focus)) == Ids(t)
  {
    var f, w := p[0], p[0].sibling;
    SiblingView(p, s);
    var g := Attach(f.(color := Red, sibling := w.(color := Black)), s);
    var top := if f.LeftOf? then RotateLeft(g) else RotateRight(g);
    PlugSameKeys(p[1..], Attach(f, s), top);
    PlugSameIds(p[1..], Attach(f, s), top);
  }

  lemma {:induction false} RecolorSiblingContents(p: Path, s: Tree)
    requires |p| > 0 && p[0].sibling.Node?
    ensures var t := Plug(p, s); var r := RecolorSibling(p, s);
      Keys(Plug(r.path, r.focus)) == Keys(t) && Ids(Plug(r.path, r.focus)) == Ids(t)
  {
    var w := p[0].sibling;
    SiblingView(p, s);
    PlugSameKeys([Flip(p[0], s)] + p[1..], w, w.(color := Red));
    PlugSameIds([Flip(p[0], s)] + p[1..], w, w.(color := Red));
  }

  lemma {:induction false} RotateSiblingContents(p: Path, s: Tree)
    requires |p| > 0 && p[0].sibling.Node? && Near(p).Node?
    ensures var t := Plug(p, s); var r := RotateSibling(p, s);
      Keys(Plug(r.path, r.focus)) == Keys(t) && Ids(Plug(r.path, r.focus)) == Ids(t)
  {
    var f, w := p[0], p[0].sibling;
    SiblingView(p, s);
    var w3 := if f.LeftOf? then w.(color := Red, left := Blacken(w.left)) else w.(color := Red, right := Blacken(w.right));
    assert Keys(Blacken(Near(p))) == Keys(Near(p)) && Ids(Blacken(Near(p))) == Ids(Near(p));
    var top := if f.LeftOf? then RotateRight(w3) else RotateLeft(w3);
    PlugSameKeys([Flip(f, s)] + p[1..], w, top);
    PlugSameIds([Flip(f, s)] + p[1..], w, top);
  }

  lemma {:induction false} RotateParentContents(p: Path, s: Tree)
    requires |p| > 0 && p[0].sibling.Node? && Far(p).Node?
    ensures var t := Plug(p, s); var r := RotateParent(p, s);
      Keys(r.focus) == Keys(t) && Ids(r.focus) == Ids(t)
  {
    var f, w := p[0], p[0].sibling;
    SiblingView(p, s);
    var w4 := if f.LeftOf? then w.(color := f.color, right := Blacken(w.right)) else w.(color := f.color, left := Blacken(w.left));
    assert Keys(Blacken(Far(p))) == Keys(Far(p)) && Ids(Blacken(Far(p))) == Ids(Far(p));
    var g4 := Attach(f.(color := Black, sibling := w4), s);
    var top := if f.LeftOf? then RotateLeft(g4) else RotateRight(g4);
    PlugSameKeys(p[1..], Attach(f, s), top);
    PlugSameIds(p[1..], Attach(f, s), top);
  }

  // ---------------------------------------------------------------------------
  // The invariant

  /** What the invariant says one level up while the loop runs: the sibling is
      a real node one black level higher than the cursor, and a red sibling
      has a black parent. */
  lemma {:induction false} LoopFacts(p: Path, s: Tree)
    requires DelInv(p, s) && Running(p, s)
    ensures p[0].sibling.Node? && Balanced(p[0].sibling) && RedFree(p[0].sibling)
    ensures BlackHeight(p[0].sibling) == BlackHeight(s) + 1
    ensures p[0].color == Red ==> p[0].sibling.color == Black
    ensures PathBalanced(p[1..], BlackHeight(s) + 1 + Weight(p[0].color))
    ensures PathRedFree(p[1..], p[0].color) && PathRedFree(p[1..], Black)
    ensures RedFree(s)
    ensures BlackHeight(Near(p)) == BlackHeight(Far(p))
    ensures p[0].sibling.color == Red ==>
      Near(p).Node? && Near(p).color == Black && Far(p).Node? && Far(p).color == Black
  {
    PathRedFreeBlack(p[1..], p[0].color);
  }

  /** While the loop runs, the cursor has a real sibling. */
  lemma {:induction false} SiblingPresent(p: Path, s: Tree)
    requires DelInv(p, s) && Running(p, s)
    ensures p[0].sibling.Node?
  {
    LoopFacts(p, s);
  }

  lemma {:induction false} SiblingRedKeeps(p: Path, s: Tree)
    requires DelInv(p, s) && Running(p, s) && p[0].sibling.Node? && p[0].sibling.color == Red
    ensures var r := SiblingRed(p, s);
      && DelInv(r.path, r.focus) && Running(r.path, r.focus)
      && r.path[0].color == Red && r.path[0].sibling.Node? && r.path[0].sibling.color == Black
  {
    LoopFacts(p, s);
    var r := SiblingRed(p, s);
    assert r.path[1..][1..] == p[1..];
    assert TopBlack(r.path) by {
      if |p| > 1 { assert r.path[|r.path| - 1] == p[|p| - 1]; }
    }
  }

  lemma {:induction false} RecolorSiblingKeeps(p: Path, s: Tree)
    requires DelInv(p, s) && Running(p, s) && p[0].sibling.Node? && p[0].sibling.color == Black
    requires RootColor(Near(p)) == Black && RootColor(Far(p)) == Black
    ensures var r := RecolorSibling(p, s); DelInv(r.path, r.focus)
  {
    LoopFacts(p, s);
    var r := RecolorSibling(p, s);
    assert TopBlack(r.path) by {
      if |p| > 1 { assert r.path[|r.path| - 1] == p[|p| - 1]; }
    }
  }

  lemma {:induction false} RotateSiblingKeeps(p: Path, s: Tree)
    requires DelInv(p, s) && Running(p, s) && p[0].sibling.Node? && p[0].sibling.color == Black
    requires RootColor(Near(p)) == Red && RootColor(Far(p)) == Black
    ensures var r := RotateSibling(p, s);
      && DelInv(r.path, r.focus) && Running(r.path, r.focus)
      && r.path[0].sibling.Node? && r.path[0].sibling.color == Black && RootColor(Far(r.path)) == Red
  {
    LoopFacts(p, s);
    var f, w, n := p[0], p[0].sibling, Near(p);
    var h := BlackHeight(s);
    assert BlackHeight(n) == h && Balanced(n) && RedFree(n);
    var r := RotateSibling(p, s);
    var w' := r.path[0].sibling;
    if f.LeftOf? {
      assert Far(p) == w.right;
      var lo := Node(Red, n.right, w.id, w.key, w.right);
      assert BlackHeight(lo) == h && Balanced(lo) && RedFree(lo);
      assert w' == Node(Black, n.left, n.id, n.key, lo);
    } else {
      assert Far(p) == w.left;
      var hi := Node(Red, w.left, w.id, w.key, n.left);
      assert BlackHeight(hi) == h && Balanced(hi) && RedFree(hi);
      assert w' == Node(Black, hi, n.id, n.key, n.right);
    }
    assert Balanced(w') && BlackHeight(w') == h + 1 && RedFree(w');
    assert r.path[1..] == p[1..];
    assert TopBlack(r.path) by {
      if |p| > 1 { assert r.path[|r.path| - 1] == p[|p| - 1]; }
    }
  }

  lemma {:induction false} RotateParentKeeps(p: Path, s: Tree)
    requires DelInv(p, s) && Running(p, s) && p[0].sibling.Node? && p[0].sibling.color == Black
    requires RootColor(Far(p)) == Red
    ensures var r := RotateParent(p, s); DelInv(r.path, r.focus) && !Running(r.path, r.focus)
  {
    LoopFacts(p, s);
    var f, w := p[0], p[0].sibling;
    var h := BlackHeight(s);
    var top: Tree;
    if f.LeftOf? {
      assert Far(p) == w.right && Near(p) == w.left;
      assert BlackHeight(w.left) == h && BlackHeight(w.right) == h;
      var fr := Blacken(w.right);
      assert BlackHeight(fr) == h + 1 && Balanced(fr) && RedFree(fr);
      var lo := Node(Black, s, f.id, f.key, w.left);
      assert BlackHeight(lo) == h + 1 && Balanced(lo) && RedFree(lo);
      top := Node(f.color, lo, w.id, w.key, fr);
    } else {
      assert Far(p) == w.left && Near(p) == w.right;
      assert BlackHeight(w.left) == h && BlackHeight(w.right) == h;
      var fl := Blacken(w.left);
      assert BlackHeight(fl) == h + 1 && Balanced(fl) && RedFree(fl);
      var ro := Node(Black, w.right, f.id, f.key, s);
      assert BlackHeight(ro) == h + 1 && Balanced(ro) && RedFree(ro);
      top := Node(f.color, fl, w.id, w.key, ro);
    }
    assert RotateParent(p, s).focus == Plug(p[1..], top);
    assert Balanced(top) && BlackHeight(top) == h + 1 + Weight(f.color);
    assert RedFree(top);
    PlugBalanced(p[1..], top);
    PlugRedFree(p[1..], top);
    BlackenRedFree(Plug(p[1..], top));
    var r := RotateParent(p, s);
    assert r.path == [];
    assert PathBalanced(r.path, BlackHeight(r.focus) + 1) && PathRedFree(r.path, Black);
  }

  lemma {:induction false} BlackenRedFree(t: Tree)
    requires RedFree(t)
    ensures RedFree(Blacken(t))
    ensures Balanced(t) ==> Balanced(Blacken(t))
  {
  }

  /** When the loop stops, blackening the cursor gives a valid red-black tree
      with the same keys and slots. */
  lemma {:induction false} DeleteDone(p: Path, s: Tree)
    requires DelInv(p, s) && !Running(p, s)
    ensures var t := Plug(p, Blacken(s));
      && Balanced(t) && RedFree(t) && RootColor(t) == Black
      && Keys(t) == Keys(Plug(p, s)) && Ids(t) == Ids(Plug(p, s))
  {
    var b := Blacken(s);
    assert Balanced(b);
    assert |p| > 0 ==> BlackHeight(b) == BlackHeight(s) + 1;
    PlugBalanced(p, b);
    PlugRedFree(p, b);
    PlugRoot(p, b);
    PlugSameKeys(p, s, b);
    PlugSameIds(p, s, b);
  }
}
