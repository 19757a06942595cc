/** The cases of the two fix-up loops of `src/rbtree.c` on the node store.

    Each lemma takes a store holding the tree seen through a cursor, performs
    the colour writes and the rotation of one case in the order the code does
    them, and states that the store then holds the tree the value-level rule
    of that case produces.  The `Reads` lemmas state what the code's pointer
    reads (parent, grandparent, uncle, sibling and its children) return, in
    terms of the cursor. */
module FixupSteps {
  import opened Trees
  import opened Paths
  import opened NodeStore
  import opened InsertRules
  import opened DeleteRules

  // ---------------------------------------------------------------------------
  // Insertion

  /** What `rbtree_insert_fixup` reads when the parent of the cursor is red. */
  lemma {:induction false} InsertReads(b: RbTree, q: Path, u: Tree)
    requires Holds(b, Plug(q, u)) && u.Node? && |q| >= 2
    ensures u.id < |b.nodes| && b.nodes[u.id].parent == q[0].id
    ensures q[0].id < |b.nodes| && b.nodes[q[0].id].parent == q[1].id && b.nodes[q[0].id].color == q[0].color
    ensures q[1].id < |b.nodes| && (q[0].id == b.nodes[q[1].id].left <==> q[1].LeftOf?)
    ensures (u.id == b.nodes[q[0].id].right <==> q[0].RightOf?)
    ensures (u.id == b.nodes[q[0].id].left <==> q[0].LeftOf?)
    ensures var uncle := if q[1].LeftOf? then b.nodes[q[1].id].right else b.nodes[q[1].id].left;
      uncle == RootId(q[1].sibling) && uncle < |b.nodes| && b.nodes[uncle].color == UncleColor(q)
  {
    FocusFacts(b, q, u);
    var P := Attach(q[0], u);
    assert Plug(q, u) == Plug(q[1..], P);
    FocusFacts(b, q[1..], P);
    assert q[1..][0] == q[1] && q[1..][1..] == q[2..];
    assert u.id in Ids(u);
    var U := q[1].sibling;
    if U.Node? {
      assert U.id in Ids(U);
    }
  }

  /** Lines 109-112: uncle and parent turn black, the grandparent red. */
  lemma {:induction false} RecolorLeftStore(b: RbTree, q: Path, u: Tree)
    requires Holds(b, Plug(q, u)) && |q| >= 2 && q[1].LeftOf? && q[1].sibling.Node?
    ensures q[0].id < |b.nodes| && q[1].id < |b.nodes| && q[1].sibling.id < |b.nodes|
    ensures var r := RecolorUp(q, u);
      var b3 := SetColor(SetColor(SetColor(b, q[1].sibling.id, Black), q[0].id, Black), q[1].id, Red);
      Holds(b3, Plug(r.path, r.focus)) && b3.nodes[Nil] == b.nodes[Nil]
  {
    var P, U, f1, rest := Attach(q[0], u), q[1].sibling, q[1], q[2..];
    var BU := U.(color := Black);
    assert q[1..] == [f1] + rest;
    assert Plug(q, u) == Plug([f1] + rest, P);
    SiblingView([f1] + rest, P);
    assert ([f1] + rest)[1..] == rest;
    SetColorFocus(b, [Flip(f1, P)] + rest, U, Black);
    var b1 := SetColor(b, U.id, Black);
    var f1' := f1.(sibling := BU);
    PlugCons(Flip(f1, P), rest, BU);
    PlugCons(f1', rest, P);
    SetColorFocus(b1, [f1'] + rest, P, Black);
    var b2 := SetColor(b1, q[0].id, Black);
    var G := Attach(f1', P.(color := Black));
    PlugCons(f1', rest, P.(color := Black));
    SetColorFocus(b2, rest, G, Red);
    FocusFacts(b, q, u);
  }

  /** Lines 132-135: parent and uncle turn black, the grandparent red. */
  lemma {:induction false} RecolorRightStore(b: RbTree, q: Path, u: Tree)
    requires Holds(b, Plug(q, u)) && |q| >= 2 && q[1].RightOf? && q[1].sibling.Node?
    ensures q[0].id < |b.nodes| && q[1].id < |b.nodes| && q[1].sibling.id < |b.nodes|
    ensures var r := RecolorUp(q, u);
      var b3 := SetColor(SetColor(SetColor(b, q[0].id, Black), q[1].sibling.id, Black), q[1].id, Red);
      Holds(b3, Plug(r.path, r.focus)) && b3.nodes[Nil] == b.nodes[Nil]
  {
    var P, U, f1, rest := Attach(q[0], u), q[1].sibling, q[1], q[2..];
    var BU, PB := U.(color := Black), P.(color := Black);
    assert q[1..] == [f1] + rest;
    assert Plug(q, u) == Plug([f1] + rest, P);
    SetColorFocus(b, [f1] + rest, P, Black);
    var b1 := SetColor(b, q[0].id, Black);
    SiblingView([f1] + rest, PB);
    assert ([f1] + rest)[1..] == rest;
    SetColorFocus(b1, [Flip(f1, PB)] + rest, U, Black);
    var b2 := SetColor(b1, U.id, Black);
    var G := Attach(f1.(sibling := BU), PB);
    PlugCons(Flip(f1, PB), rest, BU);
    SetColorFocus(b2, rest, G, Red);
    FocusFacts(b, q, u);
  }

  /** Lines 118-119 and 139-140: the cursor moves to its parent, which is
      rotated down to the outer side. */
  lemma {:induction false} RotateInnerStore(b: RbTree, q: Path, u: Tree)
    requires Holds(b, Plug(q, u)) && |q| >= 1 && u.Node?
    ensures q[0].RightOf? ==>
      && CanLeftRotate(b, q[0].id)
      && Holds(LeftRotate(b, q[0].id), Plug(RotateInner(q, u).path, RotateInner(q, u).focus))
      && LeftRotate(b, q[0].id).nodes[Nil] == b.nodes[Nil]
    ensures q[0].LeftOf? ==>
      && CanRightRotate(b, q[0].id)
      && Holds(RightRotate(b, q[0].id), Plug(RotateInner(q, u).path, RotateInner(q, u).focus))
      && RightRotate(b, q[0].id).nodes[Nil] == b.nodes[Nil]
  {
    assert Plug(q, u) == Plug(q[1..], Attach(q[0], u));
    if q[0].RightOf? {
      LeftRotateFocus(b, q[1..], Attach(q[0], u));
    } else {
      RightRotateFocus(b, q[1..], Attach(q[0], u));
    }
  }

  /** Lines 121-123 and 142-144: parent black, grandparent red, and the
      grandparent rotated down to the uncle's side. */
  lemma {:induction false} RotateOuterStore(b: RbTree, q: Path, u: Tree)
    requires Holds(b, Plug(q, u)) && |q| >= 2 && q[0].LeftOf? == q[1].LeftOf?
    ensures q[0].id < |b.nodes| && q[1].id < |b.nodes|
    ensures var b2 := SetColor(SetColor(b, q[0].id, Black), q[1].id, Red);
      var r := RotateOuter(q, u);
      && (q[1].LeftOf? ==>
            CanRightRotate(b2, q[1].id) && Holds(RightRotate(b2, q[1].id), Plug(r.path, r.focus))
            && RightRotate(b2, q[1].id).nodes[Nil] == b.nodes[Nil])
      && (q[1].RightOf? ==>
            CanLeftRotate(b2, q[1].id) && Holds(LeftRotate(b2, q[1].id), Plug(r.path, r.focus))
            && LeftRotate(b2, q[1].id).nodes[Nil] == b.nodes[Nil])
  {
    var P, f1, rest := Attach(q[0], u), q[1], q[2..];
    var PB := P.(color := Black);
    assert q[1..] == [f1] + rest;
    assert Plug(q, u) == Plug([f1] + rest, P);
    FocusFacts(b, q, u);
    SetColorFocus(b, [f1] + rest, P, Black);
    var b1 := SetColor(b, q[0].id, Black);
    PlugCons(f1, rest, PB);
    SetColorFocus(b1, rest, Attach(f1, PB), Red);
    var b2 := SetColor(b1, f1.id, Red);
    var g := Attach(f1, PB).(color := Red);
    assert g == Attach(q[1].(color := Red), Attach(q[0].(color := Black), u));
    if f1.LeftOf? {
      RightRotateFocus(b2, rest, g);
    } else {
      LeftRotateFocus(b2, rest, g);
    }
  }

  // ---------------------------------------------------------------------------
  // Deletion

  /** What `delete_fixup` reads while the loop runs: the cursor's parent
      (through the sentinel's parent link when the cursor is empty), the side,
      the sibling `w`, its children's colours and the parent's colour. */
  lemma {:induction false} DeleteReads(b: RbTree, q: Path, u: Tree)
    requires Holds(b, Plug(q, u)) && |q| > 0 && q[0].sibling.Node?
    requires u.Leaf? ==> b.nodes[Nil].parent == q[0].id
    ensures RootId(u) < |b.nodes| && b.nodes[RootId(u)].parent == q[0].id
    ensures q[0].id < |b.nodes| && b.nodes[q[0].id].color == q[0].color
    ensures (RootId(u) == b.nodes[q[0].id].left <==> q[0].LeftOf?)
    ensures var w := q[0].sibling;
      && (q[0].LeftOf? ==> b.nodes[q[0].id].right == w.id)
      && (q[0].RightOf? ==> b.nodes[q[0].id].left == w.id)
      && w.id < |b.nodes|
      && b.nodes[w.id].left == RootId(w.left) && b.nodes[w.id].right == RootId(w.right)
      && b.nodes[w.id].color == w.color
      && RootId(w.left) < |b.nodes| && b.nodes[RootId(w.left)].color == RootColor(w.left)
      && RootId(w.right) < |b.nodes| && b.nodes[RootId(w.right)].color == RootColor(w.right)
  {
    FocusFacts(b, q, u);
    var w := q[0].sibling;
    ReprIds(b.nodes, w, q[0].id);
    assert Repr(b.nodes, w.left, w.id) && Repr(b.nodes, w.right, w.id);
  }

  /** Whether the loop of `delete_fixup` runs: the cursor is not the root and
      reads black. */
  lemma {:induction false} LoopReads(b: RbTree, q: Path, u: Tree)
    requires Holds(b, Plug(q, u))
    ensures RootId(u) < |b.nodes|
    ensures (RootId(u) != b.root && b.nodes[RootId(u)].color == Black) <==> Running(q, u)
  {
    FocusFacts(b, q, u);
    if |q| > 0 {
      // The root's record points up to the sentinel, the cursor's to a real node.
      PlugRoot(q, u);
      ReprIds(b.nodes, Plug(q, u), Nil);
      assert b.root in Ids(Plug(q, u)) && b.nodes[b.root].parent == Nil;
    }
  }

  /** Lines 256-259 and 285-288: the red sibling turns black, the parent red,
      and the parent is rotated down to the cursor's side. */
  lemma {:induction false} SiblingRedStore(b: RbTree, q: Path, u: Tree)
    requires Holds(b, Plug(q, u)) && |q| > 0 && q[0].sibling.Node?
    ensures q[0].id < |b.nodes| && q[0].sibling.id < |b.nodes|
    ensures var b2 := SetColor(SetColor(b, q[0].sibling.id, Black), q[0].id, Red);
      var r := SiblingRed(q, u);
      && (q[0].LeftOf? ==>
            CanLeftRotate(b2, q[0].id) && Holds(LeftRotate(b2, q[0].id), Plug(r.path, r.focus))
            && LeftRotate(b2, q[0].id).nodes[Nil] == b.nodes[Nil])
      && (q[0].RightOf? ==>
            CanRightRotate(b2, q[0].id) && Holds(RightRotate(b2, q[0].id), Plug(r.path, r.focus))
            && RightRotate(b2, q[0].id).nodes[Nil] == b.nodes[Nil])
  {
    var f0, w, rest := q[0], q[0].sibling, q[1..];
    var wB := w.(color := Black);
    SiblingView(q, u);
    SetColorFocus(b, [Flip(f0, u)] + rest, w, Black);
    var b1 := SetColor(b, w.id, Black);
    var f0' := f0.(sibling := wB);
    PlugCons(Flip(f0, u), rest, wB);
    FlipAttach(f0', u);
    assert Flip(f0', u) == Flip(f0, u);
    SetColorFocus(b1, rest, Attach(f0', u), Red);
    var b2 := SetColor(b1, f0.id, Red);
    var g := Attach(f0.(color := Red, sibling := wB), u);
    assert g == Attach(f0', u).(color := Red);
    FocusFacts(b, q, u);
    if f0.LeftOf? {
      LeftRotateFocus(b2, rest, g);
    } else {
      RightRotateFocus(b2, rest, g);
    }
  }

  /** Lines 263-264 and 292-293: the sibling turns red and the cursor moves up. */
  lemma {:induction false} RecolorSiblingStore(b: RbTree, q: Path, u: Tree)
    requires Holds(b, Plug(q, u)) && |q| > 0 && q[0].sibling.Node?
    ensures q[0].sibling.id < |b.nodes|
    ensures var r := RecolorSibling(q, u); var b1 := SetColor(b, q[0].sibling.id, Red);
      Holds(b1, Plug(r.path, r.focus)) && b1.nodes[Nil] == b.nodes[Nil]
  {
    SiblingView(q, u);
    SetColorFocus(b, [Flip(q[0], u)] + q[1..], q[0].sibling, Red);
  }

  /** Lines 268-270: the sibling's near child turns black, the sibling red,
      and the sibling is rotated away from the cursor (cursor on the left). */
  lemma {:induction false} RotateSiblingLeftStore(b: RbTree, q: Path, u: Tree)
    requires Holds(b, Plug(q, u)) && |q| > 0 && q[0].LeftOf? && q[0].sibling.Node? && q[0].sibling.left.Node?
    ensures q[0].sibling.id < |b.nodes| && q[0].sibling.left.id < |b.nodes|
    ensures var w := q[0].sibling;
      var b2 := SetColor(SetColor(b, w.left.id, Black), w.id, Red);
      var r := RotateSibling(q, u);
      && CanRightRotate(b2, w.id) && Holds(RightRotate(b2, w.id), Plug(r.path, r.focus))
      && RightRotate(b2, w.id).nodes[Nil] == b.nodes[Nil]
      && KeysKept(b, RightRotate(b2, w.id))
  {
    var w, fl := q[0].sibling, [Flip(q[0], u)] + q[1..];
    SiblingView(q, u);
    var nf := LeftOf(w.color, w.id, w.key, w.right);
    PlugCons(nf, fl, w.left);
    SetColorFocus(b, [nf] + fl, w.left, Black);
    var b1 := SetColor(b, w.left.id, Black);
    var BL := w.left.(color := Black);
    PlugCons(nf, fl, BL);
    SetColorFocus(b1, fl, w.(left := BL), Red);
    var b2 := SetColor(b1, w.id, Red);
    RightRotateFocus(b2, fl, w.(left := BL, color := Red));
    FocusFacts(b, fl, w);
    RightRotateKeys(b2, w.id);
    KeysKeptTrans(b, b1, b2);
    KeysKeptTrans(b, b2, RightRotate(b2, w.id));
  }

  /** Lines 297-299, the mirror image of `RotateSiblingLeftStore`. */
  lemma {:induction false} RotateSiblingRightStore(b: RbTree, q: Path, u: Tree)
    requires Holds(b, Plug(q, u)) && |q| > 0 && q[0].RightOf? && q[0].sibling.Node? && q[0].sibling.right.Node?
    ensures q[0].sibling.id < |b.nodes| && q[0].sibling.right.id < |b.nodes|
    ensures var w := q[0].sibling;
      var b2 := SetColor(SetColor(b, w.right.id, Black), w.id, Red);
      var r := RotateSibling(q, u);
      && CanLeftRotate(b2, w.id) && Holds(LeftRotate(b2, w.id), Plug(r.path, r.focus))
      && LeftRotate(b2, w.id).nodes[Nil] == b.nodes[Nil]
      && KeysKept(b, LeftRotate(b2, w.id))
  {
    var w, fl := q[0].sibling, [Flip(q[0], u)] + q[1..];
    SiblingView(q, u);
    var nf := RightOf(w.color, w.left, w.id, w.key);
    PlugCons(nf, fl, w.right);
    SetColorFocus(b, [nf] + fl, w.right, Black);
    var b1 := SetColor(b, w.right.id, Black);
    var BR := w.right.(color := Black);
    PlugCons(nf, fl, BR);
    SetColorFocus(b1, fl, w.(right := BR), Red);
    var b2 := SetColor(b1, w.id, Red);
    LeftRotateFocus(b2, fl, w.(right := BR, color := Red));
    FocusFacts(b, fl, w);
    LeftRotateKeys(b2, w.id);
    KeysKeptTrans(b, b1, b2);
    KeysKeptTrans(b, b2, LeftRotate(b2, w.id));
  }

  /** Lines 274-277: the sibling takes the parent's colour, the parent and the
      far child turn black, and the parent is rotated down (cursor on the left). */
  lemma {:induction false} RotateParentLeftStore(b: RbTree, q: Path, u: Tree)
    requires Holds(b, Plug(q, u)) && |q| > 0 && q[0].LeftOf? && q[0].sibling.Node? && q[0].sibling.right.Node?
    ensures q[0].id < |b.nodes| && q[0].sibling.id < |b.nodes| && q[0].sibling.right.id < |b.nodes|
    ensures var w := q[0].sibling;
      var b3 := SetColor(SetColor(SetColor(b, w.id, q[0].color), q[0].id, Black), w.right.id, Black);
      && CanLeftRotate(b3, q[0].id) && Holds(LeftRotate(b3, q[0].id), RotateParent(q, u).focus)
      && LeftRotate(b3, q[0].id).nodes[Nil] == b.nodes[Nil]
      && KeysKept(b, LeftRotate(b3, q[0].id))
  {
    var f0, w, rest := q[0], q[0].sibling, q[1..];
    SiblingView(q, u);
    FocusFacts(b, [Flip(f0, u)] + rest, w);
    SetColorFocus(b, [Flip(f0, u)] + rest, w, f0.color);
    var b1 := SetColor(b, w.id, f0.color);
    var w1 := w.(color := f0.color);
    PlugCons(Flip(f0, u), rest, w1);
    FlipAttach(f0.(sibling := w1), u);
    assert Flip(f0.(sibling := w1), u) == Flip(f0, u);
    SetColorFocus(b1, rest, Attach(f0.(sibling := w1), u), Black);
    var b2 := SetColor(b1, f0.id, Black);
    var f0' := f0.(sibling := w1, color := Black);
    assert Attach(f0.(sibling := w1), u).(color := Black) == Attach(f0', u);
    var ff := RightOf(w1.color, w.left, w.id, w.key);
    FlipAttach(f0', u);
    PlugCons(Flip(f0', u), rest, w1);
    PlugCons(ff, [Flip(f0', u)] + rest, w.right);
    SetColorFocus(b2, [ff] + ([Flip(f0', u)] + rest), w.right, Black);
    var b3 := SetColor(b2, w.right.id, Black);
    var BR := w.right.(color := Black);
    PlugCons(ff, [Flip(f0', u)] + rest, BR);
    var g := Attach(f0.(color := Black, sibling := w.(color := f0.color, right := Blacken(w.right))), u);
    FlipAttach(f0.(color := Black, sibling := w.(color := f0.color, right := Blacken(w.right))), u);
    PlugCons(Flip(f0', u), rest, Attach(ff, BR));
    LeftRotateFocus(b3, rest, g);
    LeftRotateKeys(b3, f0.id);
    KeysKeptTrans(b, b1, b2);
    KeysKeptTrans(b, b2, b3);
    KeysKeptTrans(b, b3, LeftRotate(b3, f0.id));
  }

  /** Lines 303-306, the mirror image of `RotateParentLeftStore`. */
  lemma {:induction false} RotateParentRightStore(b: RbTree, q: Path, u: Tree)
    requires Holds(b, Plug(q, u)) && |q| > 0 && q[0].RightOf? && q[0].sibling.Node? && q[0].sibling.left.Node?
    ensures q[0].id < |b.nodes| && q[0].sibling.id < |b.nodes| && q[0].sibling.left.id < |b.nodes|
    ensures var w := q[0].sibling;
      var b3 := SetColor(SetColor(SetColor(b, w.id, q[0].color), q[0].id, Black), w.left.id, Black);
      && CanRightRotate(b3, q[0].id) && Holds(RightRotate(b3, q[0].id), RotateParent(q, u).focus)
      && RightRotate(b3, q[0].id).nodes[Nil] == b.nodes[Nil]
      && KeysKept(b, RightRotate(b3, q[0].id))
  {
    var f0, w, rest := q[0], q[0].sibling, q[1..];
    SiblingView(q, u);
    FocusFacts(b, [Flip(f0, u)] + rest, w);
    SetColorFocus(b, [Flip(f0, u)] + rest, w, f0.color);
    var b1 := SetColor(b, w.id, f0.color);
    var w1 := w.(color := f0.color);
    PlugCons(Flip(f0, u), rest, w1);
    FlipAttach(f0.(sibling := w1), u);
    assert Flip(f0.(sibling := w1), u) == Flip(f0, u);
    SetColorFocus(b1, rest, Attach(f0.(sibling := w1), u), Black);
    var b2 := SetColor(b1, f0.id, Black);
    var f0' := f0.(sibling := w1, color := Black);
    assert Attach(f0.(sibling := w1), u).(color := Black) == Attach(f0', u);
    var ff := LeftOf(w1.color, w.id, w.key, w.right);
    FlipAttach(f0', u);
    PlugCons(Flip(f0', u), rest, w1);
    PlugCons(ff, [Flip(f0', u)] + rest, w.left);
    SetColorFocus(b2, [ff] + ([Flip(f0', u)] + rest), w.left, Black);
    var b3 := SetColor(b2, w.left.id, Black);
    var BL := w.left.(color := Black);
    PlugCons(ff, [Flip(f0', u)] + rest, BL);
    var g := Attach(f0.(color := Black, sibling := w.(color := f0.color, left := Blacken(w.left))), u);
    FlipAttach(f0.(color := Black, sibling := w.(color := f0.color, left := Blacken(w.left))), u);
    PlugCons(Flip(f0', u), rest, Attach(ff, BL));
    RightRotateFocus(b3, rest, g);
    RightRotateKeys(b3, f0.id);
    KeysKeptTrans(b, b1, b2);
    KeysKeptTrans(b, b2, b3);
    KeysKeptTrans(b, b3, RightRotate(b3, f0.id));
  }
}
