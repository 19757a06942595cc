/** Paths from a focused subtree up to the root.

    The fix-up loops of the tree walk upwards through `parent` links.  On values
    this is a zipper: the subtree under the cursor together with the list of
    frames between it and the root, nearest frame first.  `Plug` rebuilds the
    whole tree; the lemmas below split each tree-wide invariant into a part about
    the focused subtree and a part about the path. */
module Paths {
  import opened Trees

  /** One level above the focus: the parent's colour, slot and key, and the
      parent's other child. */
  datatype Frame =
    | LeftOf(color: Color, id: nat, key: int, sibling: Tree)   // the focus is the parent's left child
    | RightOf(color: Color, sibling: Tree, id: nat, key: int)  // the focus is the parent's right child

  /** Nearest frame first; the last frame holds the root. */
  type Path = seq<Frame>

  /** A focused subtree together with the path above it. */
  datatype Cursor = Cursor(path: Path, focus: Tree)

  function Attach(f: Frame, s: Tree): Tree
  {
    match f
    case LeftOf(c, i, k, r) => Node(c, s, i, k, r)
    case RightOf(c, l, i, k) => Node(c, l, i, k, s)
  }

  function Plug(p: Path, s: Tree): Tree
    decreases |p|
  {
    if |p| == 0 then s else Plug(p[1..], Attach(p[0], s))
  }

  /** What the focus's `parent` link holds: the sentinel at the root. */
  function ParentId(p: Path): nat
  {
    if |p| == 0 then 0 else p[0].id
  }

  /** The colour read through the focus's `parent` link. */
  function ParentColor(p: Path): Color
  {
    if |p| == 0 then Black else p[0].color
  }

  /** The root of the whole tree is black unless the focus is the root. */
  predicate TopBlack(p: Path)
  {
    |p| == 0 || p[|p| - 1].color == Black
  }

  function PathIds(p: Path): set<nat>
    decreases |p|
  {
    if |p| == 0 then {} else {p[0].id} + Ids(p[0].sibling) + PathIds(p[1..])
  }

  function PathSize(p: Path): nat
    decreases |p|
  {
    if |p| == 0 then 0 else 1 + Size(p[0].sibling) + PathSize(p[1..])
  }

  /** Keys that come before the focus in the in-order sequence. */
  function LeftKeys(p: Path): seq<int>
    decreases |p|
  {
    if |p| == 0 then []
    else
      LeftKeys(p[1..]) +
      match p[0]
      case LeftOf(_, _, _, _) => []
      case RightOf(_, l, _, k) => Keys(l) + [k]
  }

  /** Keys that come after the focus in the in-order sequence. */
  function RightKeys(p: Path): seq<int>
    decreases |p|
  {
    if |p| == 0 then []
    else
      (match p[0]
       case LeftOf(_, _, k, r) => [k] + Keys(r)
       case RightOf(_, _, _, _) => []) +
      RightKeys(p[1..])
  }

  predicate PathDistinct(p: Path)
    decreases |p|
  {
    |p| == 0 ||
    (&& p[0].id != 0 && p[0].id !in Ids(p[0].sibling) && Distinct(p[0].sibling)
     && ({p[0].id} + Ids(p[0].sibling)) !! PathIds(p[1..])
     && PathDistinct(p[1..]))
  }

  /** The path is balanced around a hole of black height `h`. */
  predicate PathBalanced(p: Path, h: nat)
    decreases |p|
  {
    |p| == 0 ||
    (&& Balanced(p[0].sibling) && BlackHeight(p[0].sibling) == h
     && PathBalanced(p[1..], h + Weight(p[0].color)))
  }

  /** No red-red edge on the path, reading the hole's colour as `c`. */
  predicate PathRedFree(p: Path, c: Color)
    decreases |p|
  {
    |p| == 0 ||
    (&& (p[0].color == Red ==> c == Black && RootColor(p[0].sibling) == Black)
     && RedFree(p[0].sibling)
     && PathRedFree(p[1..], p[0].color))
  }

  /** Black height of the whole tree when the hole has black height `h`. */
  function PathHeight(p: Path, h: nat): nat
    decreases |p|
  {
    if |p| == 0 then h else PathHeight(p[1..], h + Weight(p[0].color))
  }

  lemma {:induction false} PlugKeys(p: Path, s: Tree)
    ensures Keys(Plug(p, s)) == LeftKeys(p) + Keys(s) + RightKeys(p)
    decreases |p|
  {
    if |p| > 0 {
      PlugKeys(p[1..], Attach(p[0], s));
    }
  }

  lemma {:induction false} PlugIds(p: Path, s: Tree)
    ensures Ids(Plug(p, s)) == Ids(s) + PathIds(p)
    decreases |p|
  {
    if |p| > 0 {
      PlugIds(p[1..], Attach(p[0], s));
    }
  }

  lemma {:induction false} PlugSize(p: Path, s: Tree)
    ensures Size(Plug(p, s)) == Size(s) + PathSize(p)
    decreases |p|
  {
    if |p| > 0 {
      PlugSize(p[1..], Attach(p[0], s));
    }
  }

  lemma {:induction false} PlugDistinct(p: Path, s: Tree)
    ensures Distinct(Plug(p, s)) <==> Distinct(s) && PathDistinct(p) && Ids(s) !! PathIds(p)
    decreases |p|
  {
    if |p| > 0 {
      var a := Attach(p[0], s);
      PlugDistinct(p[1..], a);
      assert Ids(a) == Ids(s) + {p[0].id} + Ids(p[0].sibling);
    }
  }

  lemma {:induction false} PlugBalanced(p: Path, s: Tree)
    ensures Balanced(Plug(p, s)) <==> Balanced(s) && PathBalanced(p, BlackHeight(s))
    ensures Balanced(Plug(p, s)) ==> BlackHeight(Plug(p, s)) == PathHeight(p, BlackHeight(s))
    decreases |p|
  {
    if |p| > 0 {
      PlugBalanced(p[1..], Attach(p[0], s));
    }
  }

  lemma {:induction false} PlugRedFree(p: Path, s: Tree)
    ensures RedFree(Plug(p, s)) <==> RedFree(s) && PathRedFree(p, RootColor(s))
    decreases |p|
  {
    if |p| > 0 {
      PlugRedFree(p[1..], Attach(p[0], s));
    }
  }

  /** The root of the plugged tree is the last frame's node, or the focus itself. */
  lemma {:induction false} PlugRoot(p: Path, s: Tree)
    ensures |p| == 0 ==> Plug(p, s) == s
    ensures |p| > 0 ==> Plug(p, s).Node? && Plug(p, s).id == p[|p| - 1].id
    ensures |p| > 0 ==> Plug(p, s).color == p[|p| - 1].color
    decreases |p|
  {
    if |p| > 0 {
      PlugRoot(p[1..], Attach(p[0], s));
    }
  }

  lemma {:induction false} PlugAppend(p: Path, q: Path, s: Tree)
    ensures Plug(p + q, s) == Plug(q, Plug(p, s))
    decreases |p|
  {
    if |p| > 0 {
      assert (p + q)[1..] == p[1..] + q;
      PlugAppend(p[1..], q, Attach(p[0], s));
    } else {
      assert p + q == q;
    }
  }

  lemma {:induction false} PathBalancedAppend(p: Path, q: Path, h: nat)
    ensures PathBalanced(p + q, h) <==> PathBalanced(p, h) && PathBalanced(q, PathHeight(p, h))
    decreases |p|
  {
    if |p| > 0 {
      assert (p + q)[1..] == p[1..] + q;
      PathBalancedAppend(p[1..], q, h + Weight(p[0].color));
    } else {
      assert p + q == q;
    }
  }

  /** A red hole constrains the path more than a black one. */
  lemma {:induction false} PathRedFreeBlack(p: Path, c: Color)
    requires PathRedFree(p, c)
    ensures PathRedFree(p, Black)
  {
  }

  /** A path whose frames all hang to the left only adds keys after the focus. */
  predicate AllLeft(p: Path)
  {
    forall i | 0 <= i < |p| :: p[i].LeftOf?
  }

  lemma {:induction false} AllLeftKeys(p: Path)
    requires AllLeft(p)
    ensures LeftKeys(p) == []
    decreases |p|
  {
    if |p| > 0 {
      AllLeftKeys(p[1..]);
    }
  }

  /** A path whose frames all hang to the right only adds keys before the focus. */
  predicate AllRight(p: Path)
  {
    forall i | 0 <= i < |p| :: p[i].RightOf?
  }

  lemma {:induction false} AllRightKeys(p: Path)
    requires AllRight(p)
    ensures RightKeys(p) == []
    decreases |p|
  {
    if |p| > 0 {
      AllRightKeys(p[1..]);
    }
  }

  /** A focus reached from the root through right links only, with an empty
      right child, is the node `Greatest` finds. */
  lemma {:induction false} RightmostGreatest(r: Tree, q: Path, u: Tree)
    requires r == Plug(q, u) && AllRight(q) && u.Node? && u.right.Leaf?
    ensures r.Node? && u == Greatest(r)
    decreases |q|
  {
    PlugRoot(q, u);
    if |q| > 0 {
      var last := |q| - 1;
      assert q == q[..last] + [q[last]];
      PlugAppend(q[..last], [q[last]], u);
      assert r == Attach(q[last], Plug(q[..last], u));
      assert q[last].RightOf?;
      PlugRoot(q[..last], u);
      RightmostGreatest(r.right, q[..last], u);
    }
  }

  /** The frame seen from the focus's sibling: the same parent, with the focus
      as the other child. */
  function Flip(f: Frame, s: Tree): Frame
  {
    match f
    case LeftOf(c, i, k, r) => RightOf(c, s, i, k)
    case RightOf(c, l, i, k) => LeftOf(c, i, k, s)
  }

  lemma {:induction false} FlipAttach(f: Frame, s: Tree)
    ensures Flip(f, s).sibling == s && Flip(f, s).id == f.id && Flip(f, s).color == f.color
    ensures Attach(Flip(f, s), f.sibling) == Attach(f, s)
  {
  }

  /** Plugging through one more frame. */
  lemma {:induction false} PlugCons(f: Frame, q: Path, s: Tree)
    ensures Plug([f] + q, s) == Plug(q, Attach(f, s))
  {
    assert ([f] + q)[1..] == q;
  }

  /** Subtrees with the same keys give whole trees with the same keys. */
  lemma {:induction false} PlugSameKeys(p: Path, s: Tree, s': Tree)
    requires Keys(s') == Keys(s)
    ensures Keys(Plug(p, s')) == Keys(Plug(p, s))
  {
    PlugKeys(p, s);
    PlugKeys(p, s');
  }

  /** Subtrees over the same slots give whole trees over the same slots. */
  lemma {:induction false} PlugSameIds(p: Path, s: Tree, s': Tree)
    requires Ids(s') == Ids(s)
    ensures Ids(Plug(p, s')) == Ids(Plug(p, s))
  {
    PlugIds(p, s);
    PlugIds(p, s');
  }

  /** Every node of a tree can be focused: some path leads from the root to the
      node in slot `z`. */
  lemma {:induction false} Locate(t: Tree, z: nat) returns (p: Path, s: Tree)
    requires z in Ids(t)
    ensures Plug(p, s) == t && s.Node? && s.id == z
  {
    match t
    case Node(c, l, i, k, r) =>
      if i == z {
        p, s := [], t;
      } else if z in Ids(l) {
        var q, u := Locate(l, z);
        PlugAppend(q, [LeftOf(c, i, k, r)], u);
        p, s := q + [LeftOf(c, i, k, r)], u;
      } else {
        var q, u := Locate(r, z);
        PlugAppend(q, [RightOf(c, l, i, k)], u);
        p, s := q + [RightOf(c, l, i, k)], u;
      }
  }
}
