/** Repair after deleting a black node: the position of `x` carries one black
    position fewer than its surroundings expect (the "double black").

    `Short(p, h)`: the surroundings `p` would be valid around a black subtree of
    black height `h + 1`, while the hole's content counts only `h`.
    `Fits(p, h)`: the surroundings are valid around a non-red subtree of black
    height `h`.  Each lemma below is one case of the repair: it names the new
    surroundings of `x` and shows that they either fit or are short by one with
    the rest of the repair still to come. */
module DoubleBlack {
  import opened TreeModel
  import opened RedBlackRules

  predicate Short<N>(p: Path<N>, h: nat)
  {
    BlackOK(p, h + 1) && RedOK(p, false)
  }

  predicate Fits<N>(p: Path<N>, h: nat)
  {
    BlackOK(p, h) && RedOK(p, false)
  }

  /** A position that is short has a non-empty sibling; a red sibling has a black parent. */
  lemma ShortSibling<N>(p: Path<N>, h: nat)
    requires Short(p, h) && !p.Top?
    ensures Sib(p).T? && Balanced(Sib(p)) && NoRedRed(Sib(p)) && Bh(Sib(p)) == h + 1
    ensures IsRed(Sib(p)) ==> p.color == Black
  {
    BlackOKUp(p, h + 1);
    RedOKUp(p, false);
  }

  /** Red surroundings that accept a red hole accept a black one. */
  lemma RedOKWeaken<N>(p: Path<N>)
    requires RedOK(p, true)
    ensures RedOK(p, false)
  {
    match p
    case Top =>
    case InLeft(_, _, _, _, _) =>
    case InRight(_, _, _, _, _) =>
  }

  /** `x` two levels below `pp`, as a left child twice: the keys after it are
      the parent's key, the keys of `a`, the grandparent's key and those of `r`. */
  lemma SidesLeft<N>(P: N, kP: int, c1: Color, a: Tree<N>,
                     N2: N, kN: int, c2: Color, r: Tree<N>, pp: Path<N>)
    ensures
      var p2 := InLeft(P, kP, c1, a, InLeft(N2, kN, c2, r, pp));
      PathLeft(p2) == PathLeft(pp)
      && PathRight(p2) == [kP] + (Inorder(a) + [kN] + Inorder(r)) + PathRight(pp)
  {
    var A, B, E := Inorder(a), Inorder(r), PathRight(pp);
    assert PathRight(InLeft(N2, kN, c2, r, pp)) == [kN] + B + E;
    assert [kP] + A + ([kN] + B + E) == [kP] + (A + [kN] + B) + E;
  }

  /** Mirror of `SidesLeft`. */
  lemma SidesRight<N>(P: N, kP: int, c1: Color, a: Tree<N>,
                      N2: N, kN: int, c2: Color, r: Tree<N>, pp: Path<N>)
    ensures
      var p2 := InRight(a, P, kP, c1, InRight(r, N2, kN, c2, pp));
      PathRight(p2) == PathRight(pp)
      && PathLeft(p2) == PathLeft(pp) + (Inorder(r) + [kN] + Inorder(a)) + [kP]
  {
    var A, B, E := Inorder(a), Inorder(r), PathLeft(pp);
    assert PathLeft(InRight(r, N2, kN, c2, pp)) == E + B + [kN];
    assert (E + B + [kN]) + A + [kP] == E + (B + [kN] + A) + [kP];
  }

  /** The two-level surroundings built by a repair with a red sibling or nephew:
      `x` below a parent of colour `c1` beside `a`, below a position of colour `c2` beside `r`. */
  lemma TwoLevels<N>(left: bool, P: N, kP: int, c1: Color, a: Tree<N>,
                     N2: N, kN: int, c2: Color, r: Tree<N>, pp: Path<N>, h: nat)
    requires Balanced(a) && NoRedRed(a) && Bh(a) == h && Balanced(r) && NoRedRed(r)
    requires Bh(r) == h + Weight(c1) && !IsRed(r)
    requires c1 == Red ==> !IsRed(a)
    requires BlackOK(pp, h + Weight(c1) + Weight(c2)) && RedOK(pp, c2 == Red)
    requires c1 == Red ==> c2 == Black
    ensures
      var p2 := if left then InLeft(P, kP, c1, a, InLeft(N2, kN, c2, r, pp))
        else InRight(a, P, kP, c1, InRight(r, N2, kN, c2, pp));
      BlackOK(p2, h) && RedOK(p2, false)
  {
  }

  /** Red sibling on the right: parent red, sibling black, rotate left at the parent.
      `x` gets a red parent and a black sibling and is still short by one. */
  lemma RedSiblingRight<N>(p: Path<N>, s: Tree<N>, h: nat)
    requires Short(p, h) && p.InLeft? && IsRed(p.right)
    ensures p.color == Black
    ensures
      var S := p.right;
      var w := T(s, p.node, p.key, Red, S.(color := Black));
      var p2 := InLeft(p.node, p.key, Red, S.left, InLeft(S.node, S.key, Black, S.right, p.up));
      Plug(p.up, RotateLeft(w)) == Plug(p2, s) && Short(p2, h)
      && PathLeft(p2) == PathLeft(p) && PathRight(p2) == PathRight(p)
  {
    ShortSibling(p, h);
    var InLeft(P, kP, cP, S, pp) := p;
    var T(a, Sn, kS, _, b) := S;
    BlackOKUp(p, h + 1);
    RedOKUp(p, false);
    TwoLevels(true, P, kP, Red, a, Sn, kS, Black, b, pp, h + 1);
    SidesLeft(P, kP, Red, a, Sn, kS, Black, b, pp);
  }

  /** Red sibling on the left: mirror of `RedSiblingRight`, rotating right. */
  lemma RedSiblingLeft<N>(p: Path<N>, s: Tree<N>, h: nat)
    requires Short(p, h) && p.InRight? && IsRed(p.left)
    ensures p.color == Black
    ensures
      var S := p.left;
      var w := T(S.(color := Black), p.node, p.key, Red, s);
      var p2 := InRight(S.right, p.node, p.key, Red, InRight(S.left, S.node, S.key, Black, p.up));
      Plug(p.up, RotateRight(w)) == Plug(p2, s) && Short(p2, h)
      && PathLeft(p2) == PathLeft(p) && PathRight(p2) == PathRight(p)
  {
    ShortSibling(p, h);
    var InRight(S, P, kP, cP, pp) := p;
    var T(a, Sn, kS, _, b) := S;
    BlackOKUp(p, h + 1);
    RedOKUp(p, false);
    TwoLevels(false, P, kP, Red, b, Sn, kS, Black, a, pp, h + 1);
    SidesRight(P, kP, Red, b, Sn, kS, Black, a, pp);
  }

  /** Black sibling on the right whose left child is red: that child takes the
      parent's place and colour, parent and sibling become its black children. */
  lemma RedNephewRightLeft<N>(p: Path<N>, h: nat)
    requires Short(p, h) && p.InLeft? && p.right.T? && !IsRed(p.right) && IsRed(p.right.left)
    ensures
      var S := p.right;
      var n := S.left;
      var p2 := InLeft(p.node, p.key, Black, n.left, InLeft(n.node, n.key, p.color, T(n.right, S.node, S.key, Black, S.right), p.up));
      Fits(p2, h) && PathLeft(p2) == PathLeft(p) && PathRight(p2) == PathRight(p)
  {
    var InLeft(P, kP, cP, S, pp) := p;
    var T(sl, Sn, kS, _, sr) := S;
    var T(a, N2, kN, _, b) := sl;
    var r := T(b, Sn, kS, Black, sr);
    ShortSibling(p, h);
    BlackOKUp(p, h + 1);
    RedOKUp(p, false);
    InnerNephewFits(true, P, kP, cP, a, N2, kN, b, Sn, kS, sr, pp, h);
    assert Inorder(S) == Inorder(a) + [kN] + Inorder(r) by {
      var A, B, C := Inorder(a), Inorder(b), Inorder(sr);
      assert Inorder(S) == (A + [kN] + B) + [kS] + C;
      assert (A + [kN] + B) + [kS] + C == A + [kN] + (B + [kS] + C);
    }
    SidesLeft(P, kP, Black, a, N2, kN, cP, r, pp);
  }

  /** The colours after a double rotation through the inner red child of the black
      sibling: `x` (to the left, or mirrored) below the black old parent beside `a`,
      below the inner child, now of the parent's old colour `cP`, beside the black
      old sibling that keeps `b` and `o`. */
  lemma InnerNephewFits<N>(left: bool, P: N, kP: int, cP: Color, a: Tree<N>, N2: N, kN: int,
                           b: Tree<N>, Sn: N, kS: int, o: Tree<N>, pp: Path<N>, h: nat)
    requires BlackOK(pp, h + 1 + Weight(cP)) && RedOK(pp, cP == Red)
    requires Balanced(a) && Balanced(b) && Balanced(o) && NoRedRed(a) && NoRedRed(b) && NoRedRed(o)
    requires !IsRed(a) && !IsRed(b) && Bh(a) == h && Bh(b) == h && Bh(o) == h
    ensures
      var r := if left then T(b, Sn, kS, Black, o) else T(o, Sn, kS, Black, b);
      var p2 := if left then InLeft(P, kP, Black, a, InLeft(N2, kN, cP, r, pp))
        else InRight(a, P, kP, Black, InRight(r, N2, kN, cP, pp));
      Fits(p2, h)
  {
    var r := if left then T(b, Sn, kS, Black, o) else T(o, Sn, kS, Black, b);
    assert Balanced(r) && NoRedRed(r) && Bh(r) == h + 1 && !IsRed(r);
    TwoLevels(left, P, kP, Black, a, N2, kN, cP, r, pp, h);
  }

  /** Black sibling on the right whose right child is red (its left child not):
      the sibling takes the parent's place and colour, its red child turns black. */
  lemma RedNephewRightRight<N>(p: Path<N>, h: nat)
    requires Short(p, h) && p.InLeft? && p.right.T? && !IsRed(p.right) && !IsRed(p.right.left) && IsRed(p.right.right)
    ensures
      var S := p.right;
      var p2 := InLeft(p.node, p.key, Black, S.left, InLeft(S.node, S.key, p.color, S.right.(color := Black), p.up));
      Fits(p2, h) && PathLeft(p2) == PathLeft(p) && PathRight(p2) == PathRight(p)
  {
    ShortSibling(p, h);
    var InLeft(P, kP, cP, S, pp) := p;
    var T(sl, Sn, kS, _, sr) := S;
    BlackOKUp(p, h + 1);
    RedOKUp(p, false);
    var r := sr.(color := Black);
    assert Balanced(r) && NoRedRed(r) && Bh(r) == h + 1 && Inorder(r) == Inorder(sr);
    TwoLevels(true, P, kP, Black, sl, Sn, kS, cP, r, pp, h);
    SidesLeft(P, kP, Black, sl, Sn, kS, cP, r, pp);
  }

  /** Black sibling on the left whose left child is red: mirror of `RedNephewRightRight`. */
  lemma RedNephewLeftLeft<N>(p: Path<N>, h: nat)
    requires Short(p, h) && p.InRight? && p.left.T? && !IsRed(p.left) && IsRed(p.left.left)
    ensures
      var S := p.left;
      var p2 := InRight(S.right, p.node, p.key, Black, InRight(S.left.(color := Black), S.node, S.key, p.color, p.up));
      Fits(p2, h) && PathLeft(p2) == PathLeft(p) && PathRight(p2) == PathRight(p)
  {
    ShortSibling(p, h);
    var InRight(S, P, kP, cP, pp) := p;
    var T(sl, Sn, kS, _, sr) := S;
    BlackOKUp(p, h + 1);
    RedOKUp(p, false);
    var l := sl.(color := Black);
    assert Balanced(l) && NoRedRed(l) && Bh(l) == h + 1 && Inorder(l) == Inorder(sl);
    TwoLevels(false, P, kP, Black, sr, Sn, kS, cP, l, pp, h);
    SidesRight(P, kP, Black, sr, Sn, kS, cP, l, pp);
  }

  /** Black sibling on the left whose right child is red (its left child not):
      mirror of `RedNephewRightLeft`. */
  lemma RedNephewLeftRight<N>(p: Path<N>, h: nat)
    requires Short(p, h) && p.InRight? && p.left.T? && !IsRed(p.left) && !IsRed(p.left.left) && IsRed(p.left.right)
    ensures
      var S := p.left;
      var n := S.right;
      var p2 := InRight(n.right, p.node, p.key, Black, InRight(T(S.left, S.node, S.key, Black, n.left), n.node, n.key, p.color, p.up));
      Fits(p2, h) && PathLeft(p2) == PathLeft(p) && PathRight(p2) == PathRight(p)
  {
    var InRight(S, P, kP, cP, pp) := p;
    var T(sl, Sn, kS, _, sr) := S;
    var T(b, M, kM, _, c) := sr;
    var l := T(sl, Sn, kS, Black, b);
    ShortSibling(p, h);
    BlackOKUp(p, h + 1);
    RedOKUp(p, false);
    InnerNephewFits(false, P, kP, cP, c, M, kM, b, Sn, kS, sl, pp, h);
    assert Inorder(S) == Inorder(l) + [kM] + Inorder(c) by {
      var A, B, C := Inorder(sl), Inorder(b), Inorder(c);
      assert Inorder(S) == A + [kS] + (B + [kM] + C);
      assert A + [kS] + (B + [kM] + C) == (A + [kS] + B) + [kM] + C;
    }
    SidesRight(P, kP, Black, c, M, kM, cP, l, pp);
  }

  /** The surroundings of `x` after the red-sibling step: the old parent, now red,
      sits below the old sibling, now black, and the sibling's inner child is the
      new sibling of `x`. */
  function RedSiblingPath<N>(p: Path<N>): (q: Path<N>)
    requires !p.Top? && Sib(p).T?
    ensures !q.Top? && q.node == p.node && q.key == p.key && q.color == Red && q.InLeft? == p.InLeft?
    ensures Depth(q) == Depth(p) + 1
  {
    var S := Sib(p);
    if p.InLeft? then InLeft(p.node, p.key, Red, S.left, InLeft(S.node, S.key, Black, S.right, p.up))
    else InRight(S.right, p.node, p.key, Red, InRight(S.left, S.node, S.key, Black, p.up))
  }

  /** The surroundings of `x` once a red child of its black sibling has been used up:
      the parent, of colour `c`, is below a node that takes over the parent's old colour. */
  function NephewPath<N>(p: Path<N>, c: Color): (q: Path<N>)
    requires !p.Top? && Sib(p).T? && (IsRed(Sib(p).left) || IsRed(Sib(p).right))
    ensures !q.Top? && q.node == p.node && q.key == p.key && q.color == c && q.InLeft? == p.InLeft?
  {
    var S := Sib(p);
    if p.InLeft? then
      if IsRed(S.left) then
        var n := S.left;
        InLeft(p.node, p.key, c, n.left, InLeft(n.node, n.key, p.color, T(n.right, S.node, S.key, Black, S.right), p.up))
      else
        InLeft(p.node, p.key, c, S.left, InLeft(S.node, S.key, p.color, S.right.(color := Black), p.up))
    else
      if IsRed(S.left) then
        InRight(S.right, p.node, p.key, c, InRight(S.left.(color := Black), S.node, S.key, p.color, p.up))
      else
        var n := S.right;
        InRight(n.right, p.node, p.key, c, InRight(T(S.left, S.node, S.key, Black, n.left), n.node, n.key, p.color, p.up))
  }

  /** Whichever side `x` is on and whichever child of the black sibling is red,
      the surroundings after the rotations fit and keep the keys on each side. */
  lemma RedNephew<N>(p: Path<N>, h: nat)
    requires Short(p, h) && !p.Top? && Sib(p).T? && !IsRed(Sib(p))
    requires IsRed(Sib(p).left) || IsRed(Sib(p).right)
    ensures Fits(NephewPath(p, Black), h)
    ensures PathLeft(NephewPath(p, Black)) == PathLeft(p) && PathRight(NephewPath(p, Black)) == PathRight(p)
  {
    if p.InLeft? {
      if IsRed(p.right.left) {
        RedNephewRightLeft(p, h);
      } else {
        RedNephewRightRight(p, h);
      }
    } else {
      if IsRed(p.left.left) {
        RedNephewLeftLeft(p, h);
      } else {
        RedNephewLeftRight(p, h);
      }
    }
  }

  /** The surroundings `p` with the sibling subtree replaced by `t`. */
  function WithSib<N>(p: Path<N>, t: Tree<N>): (q: Path<N>)
    requires !p.Top?
    ensures !q.Top? && q.node == p.node && q.key == p.key && q.color == p.color && q.up == p.up
    ensures q.InLeft? == p.InLeft? && Sib(q) == t
  {
    match p
    case InLeft(n, k, c, _, up) => InLeft(n, k, c, t, up)
    case InRight(_, n, k, c, up) => InRight(t, n, k, c, up)
  }

  /** Changing the subtree beside the hole is the same as changing the surroundings' sibling. */
  lemma WithSibPlug<N>(p: Path<N>, s: Tree<N>, t: Tree<N>)
    requires !p.Top?
    ensures Plug(SibPath(p, s), t) == Plug(WithSib(p, t), s)
    ensures SibPath(WithSib(p, t), s) == SibPath(p, s)
    ensures Up(WithSib(p, t), s) == Up(SibPath(p, s), t)
  {
  }

  /** Black sibling with two black children: the sibling turns red.  Under a black
      parent the parent's position becomes short by one; under a red parent
      turning the parent black finishes the repair. */
  lemma BlackNephews<N>(p: Path<N>, h: nat)
    requires Short(p, h) && !p.Top? && Sib(p).T? && !IsRed(Sib(p))
    requires !IsRed(Sib(p).left) && !IsRed(Sib(p).right)
    ensures
      var q := WithSib(p, Sib(p).(color := Red));
      && (p.color == Black ==> Short(p.up, h + 1))
      && (p.color == Red ==> Fits(q.(color := Black), h))
      && PathLeft(q) == PathLeft(p) && PathRight(q) == PathRight(p)
  {
    ShortSibling(p, h);
    var S := Sib(p);
    var S2 := S.(color := Red);
    assert Balanced(S2) && NoRedRed(S2) && Bh(S2) == h && Inorder(S2) == Inorder(S);
    BlackOKUp(p, h + 1);
    RedOKUp(p, false);
    var q := WithSib(p, S2);
    if p.color == Red {
      RedOKWeaken(p.up);
      BlackOKUp(q.(color := Black), h);
      RedOKUp(q.(color := Black), false);
    }
  }

  /** After the parent's position has been repaired to `q2`, `x` sits below it
      beside its now red sibling, and its own position fits. */
  lemma BlackNephewsAfter<N>(p: Path<N>, h: nat, q2: Path<N>)
    requires Short(p, h) && !p.Top? && Sib(p).T? && !IsRed(Sib(p)) && p.color == Black
    requires !IsRed(Sib(p).left) && !IsRed(Sib(p).right)
    requires Fits(q2, h + 1) && PathLeft(q2) == PathLeft(p.up) && PathRight(q2) == PathRight(p.up)
    ensures
      var w := WithSib(p, Sib(p).(color := Red));
      var q := w.(up := q2);
      Fits(q, h) && PathLeft(q) == PathLeft(p) && PathRight(q) == PathRight(p)
  {
    ShortSibling(p, h);
    var S2 := Sib(p).(color := Red);
    assert Balanced(S2) && NoRedRed(S2) && Bh(S2) == h && Inorder(S2) == Inorder(Sib(p));
    var w := WithSib(p, S2);
    var q := w.(up := q2);
    BlackOKUp(q, h);
    RedOKUp(q, false);
  }

  // ---------------------------------------------------------------------------
  // Removing a position with at most one child

  /** A black leaf of a red-black tree leaves its position short by one once removed. */
  lemma BlackLeafShort<N>(p: Path<N>, s: Tree<N>)
    requires RedBlack(Plug(p, s)) && s.T? && s.left.Leaf? && s.right.Leaf? && s.color == Black
    ensures Short(p, 0)
  {
    RedBlackPlug(p, s);
  }

  /** Surroundings that fit an empty subtree form a red-black tree with the hole left empty. */
  lemma FitsLeaf<N>(q: Path<N>)
    requires Fits(q, 0)
    ensures RedBlack(Plug(q, Leaf))
  {
    RedBlackPlug(q, Leaf);
  }

  /** A red leaf is not the root, its sibling (if any) is red as well, and it can
      be removed without breaking a rule. */
  lemma RedLeaf<N>(p: Path<N>, s: Tree<N>)
    requires RedBlack(Plug(p, s)) && s.T? && s.left.Leaf? && s.right.Leaf? && s.color == Red
    ensures !p.Top? && (Sib(p).T? ==> Sib(p).color == Red)
    ensures RedBlack(Plug(p, Leaf))
  {
    RedBlackPlug(p, s);
    RedBlackPlug(p, Leaf);
    BlackOKUp(p, 0);
    RedOKWeaken(p);
  }

  /** A position with exactly one child is black and its child is a red leaf: the
      child, turned black, can take the position's place, and so can its key
      alone, stored at the position itself. */
  lemma OneChild<N>(p: Path<N>, s: Tree<N>)
    requires RedBlack(Plug(p, s)) && s.T? && s.left.Leaf? != s.right.Leaf?
    ensures var c := if s.left.T? then s.left else s.right;
      c.left.Leaf? && c.right.Leaf? && c.color == Red && s.color == Black
      && RedBlack(Plug(p, c.(color := Black)))
      && RedBlack(Plug(p, T(Leaf, s.node, c.key, s.color, Leaf)))
  {
    RedBlackPlug(p, s);
    var c := if s.left.T? then s.left else s.right;
    assert Bh(c) == 0 && NoRedRed(c) && Balanced(c);
    RedBlackPlug(p, c.(color := Black));
    RedBlackPlug(p, T(Leaf, s.node, c.key, s.color, Leaf));
  }

  /** Removing a node with a single child, repainted black, leaves the other keys in order. */
  lemma ChildInorder<N>(p: Path<N>, s: Tree<N>)
    requires s.T? && s.left.Leaf? != s.right.Leaf?
    ensures var c := if s.left.T? then s.left else s.right;
      Inorder(Plug(p, c.(color := Black))) == PathLeft(p) + Inorder(s.left) + Inorder(s.right) + PathRight(p)
  {
    var c := if s.left.T? then s.left else s.right;
    assert Inorder(c.(color := Black)) == Inorder(s.left) + Inorder(s.right);
    InorderPlug(p, c.(color := Black));
  }
}
