/** The red-black rules on abstract trees.

    A tree is a red-black tree when its root is black, no red position has a
    red child, and every way down from a position to an empty child meets the
    same number of black positions (`Bh`, the black height).  During a
    rebalancing step the rules hold everywhere except around one position; the
    predicates on paths say what the surroundings of a hole demand of it. */
module RedBlackRules {
  import opened TreeModel

  predicate IsRed<N>(t: Tree<N>)
  {
    t.T? && t.color == Red
  }

  function Weight(c: Color): nat
  {
    if c == Black then 1 else 0
  }

  /** Black positions on the leftmost way down; in a balanced tree every way down counts the same. */
  function Bh<N>(t: Tree<N>): nat
  {
    match t
    case Leaf => 0
    case T(l, _, _, c, _) => Bh(l) + Weight(c)
  }

  predicate Balanced<N>(t: Tree<N>)
  {
    match t
    case Leaf => true
    case T(l, _, _, _, r) => Bh(l) == Bh(r) && Balanced(l) && Balanced(r)
  }

  /** No red position has a red child. */
  predicate NoRedRed<N>(t: Tree<N>)
  {
    match t
    case Leaf => true
    case T(l, _, _, c, r) => (c == Red ==> !IsRed(l) && !IsRed(r)) && NoRedRed(l) && NoRedRed(r)
  }

  predicate RedBlack<N>(t: Tree<N>)
  {
    !IsRed(t) && NoRedRed(t) && Balanced(t)
  }

  /** The surroundings `p` are balanced once the hole holds a balanced tree of black height `h`. */
  predicate BlackOK<N>(p: Path<N>, h: nat)
  {
    match p
    case Top => true
    case InLeft(_, _, c, r, up) => Balanced(r) && Bh(r) == h && BlackOK(up, h + Weight(c))
    case InRight(l, _, _, c, up) => Balanced(l) && Bh(l) == h && BlackOK(up, h + Weight(c))
  }

  /** The surroundings `p` have no red-red pair and a black root once the hole
      holds a tree without red-red pairs whose root is red exactly when `holeRed`. */
  predicate RedOK<N>(p: Path<N>, holeRed: bool)
  {
    match p
    case Top => !holeRed
    case InLeft(_, _, c, r, up) =>
      (c == Red ==> !holeRed && !IsRed(r)) && NoRedRed(r) && RedOK(up, c == Red)
    case InRight(l, _, _, c, up) =>
      (c == Red ==> !holeRed && !IsRed(l)) && NoRedRed(l) && RedOK(up, c == Red)
  }

  lemma {:induction false} BalancedPlug<N>(p: Path<N>, s: Tree<N>)
    ensures Balanced(Plug(p, s)) <==> Balanced(s) && BlackOK(p, Bh(s))
  {
    match p
    case Top =>
    case InLeft(n, k, c, r, up) =>
      BalancedPlug(up, T(s, n, k, c, r));
    case InRight(l, n, k, c, up) =>
      BalancedPlug(up, T(l, n, k, c, s));
  }

  lemma {:induction false} RedPlug<N>(p: Path<N>, s: Tree<N>)
    ensures NoRedRed(Plug(p, s)) && !IsRed(Plug(p, s)) <==> NoRedRed(s) && RedOK(p, IsRed(s))
  {
    match p
    case Top =>
    case InLeft(n, k, c, r, up) =>
      RedPlug(up, T(s, n, k, c, r));
    case InRight(l, n, k, c, up) =>
      RedPlug(up, T(l, n, k, c, s));
  }

  /** A whole tree is red-black exactly when the subtree at any position is
      internally valid and its surroundings accept it. */
  lemma RedBlackPlug<N>(p: Path<N>, s: Tree<N>)
    ensures RedBlack(Plug(p, s)) <==>
      Balanced(s) && NoRedRed(s) && BlackOK(p, Bh(s)) && RedOK(p, IsRed(s))
  {
    BalancedPlug(p, s);
    RedPlug(p, s);
  }

  /** The rules look at colours and shape only, never at keys. */
  lemma {:induction false} RekeyRules<N>(t: Tree<N>, m: map<N, int>)
    ensures Bh(Rekey(t, m)) == Bh(t) && IsRed(Rekey(t, m)) == IsRed(t)
    ensures Balanced(Rekey(t, m)) == Balanced(t) && NoRedRed(Rekey(t, m)) == NoRedRed(t)
  {
    match t
    case Leaf =>
    case T(l, _, _, _, r) =>
      RekeyRules(l, m);
      RekeyRules(r, m);
  }

  // ---------------------------------------------------------------------------
  // Repair after insertion: `s` is a red subtree without inner faults whose
  // surroundings `p` would be valid if it were black.

  predicate RedFault<N>(p: Path<N>, s: Tree<N>)
  {
    s.T? && s.color == Red && NoRedRed(s) && Balanced(s) && BlackOK(p, Bh(s)) && RedOK(p, false)
  }

  /** A new red leaf hung in an empty child of a red-black tree is the only fault. */
  lemma AttachRedFault<N>(p: Path<N>, s: Tree<N>, toLeft: bool, z: N, n: int)
    requires RedBlack(Plug(p, s)) && s.T? && (if toLeft then s.left.Leaf? else s.right.Leaf?)
    ensures RedFault(Down(p, s, toLeft), T(Leaf, z, n, Red, Leaf))
  {
    RedBlackPlug(p, s);
    var q := Down(p, s, toLeft);
    BlackOKUp(q, 0);
    RedOKUp(q, false);
  }

  /** A red subtree at the root, or under a black parent, leaves nothing to repair
      once the root is black. */
  lemma RedFaultDone<N>(p: Path<N>, s: Tree<N>)
    requires RedFault(p, s)
    ensures p.Top? ==> RedBlack(s.(color := Black))
    ensures !p.Top? && p.color == Black ==> RedBlack(Plug(p, s))
  {
    RedBlackPlug(p, s);
  }

  /** One level of `BlackOK`: the sibling must match the hole, and the level above
      must accept the parent. */
  lemma BlackOKUp<N>(p: Path<N>, h: nat)
    requires !p.Top?
    ensures BlackOK(p, h) <==> Balanced(Sib(p)) && Bh(Sib(p)) == h && BlackOK(p.up, h + Weight(p.color))
  {
  }

  /** One level of `RedOK`. */
  lemma RedOKUp<N>(p: Path<N>, holeRed: bool)
    requires !p.Top?
    ensures RedOK(p, holeRed) <==>
      (p.color == Red ==> !holeRed && !IsRed(Sib(p))) && NoRedRed(Sib(p)) && RedOK(p.up, p.color == Red)
  {
  }

  /** The rules for a subtree one level up, in terms of the hole and the sibling. */
  lemma UpRules<N>(p: Path<N>, s: Tree<N>)
    requires !p.Top?
    ensures Balanced(Up(p, s)) <==> Balanced(s) && Balanced(Sib(p)) && Bh(s) == Bh(Sib(p))
    ensures Balanced(Up(p, s)) ==> Bh(Up(p, s)) == Bh(s) + Weight(p.color)
    ensures NoRedRed(Up(p, s)) <==>
      (p.color == Red ==> !IsRed(s) && !IsRed(Sib(p))) && NoRedRed(s) && NoRedRed(Sib(p))
  {
  }

  /** A red parent is never the root; the grandparent is black. */
  lemma RedParent<N>(p: Path<N>, s: Tree<N>)
    requires RedFault(p, s) && !p.Top? && p.color == Red
    ensures !p.up.Top? && p.up.color == Black
  {
    RedOKUp(p, false);
    if !p.up.Top? {
      RedOKUp(p.up, true);
    }
  }

  /** Red uncle: parent and uncle turn black and the grandparent red; the
      grandparent's subtree then has the fault, two levels higher. */
  lemma RedUncle<N>(p: Path<N>, s: Tree<N>)
    requires RedFault(p, s) && !p.Top? && p.color == Red && !p.up.Top? && IsRed(Sib(p.up))
    ensures
      var pp := p.up;
      var g := Up(SibPath(pp, Up(p, s).(color := Black)), Sib(pp).(color := Black)).(color := Red);
      RedFault(pp.up, g) && Inorder(g) == Inorder(Up(pp, Up(p, s)))
  {
    RedParent(p, s);
    var pp := p.up;
    var u := Sib(pp);
    BlackOKUp(p, Bh(s));
    RedOKUp(p, false);
    BlackOKUp(pp, Bh(s));
    RedOKUp(pp, true);
    UpRules(p, s);
    var sp := Up(p, s).(color := Black);
    var u2 := u.(color := Black);
    assert Balanced(u2) && NoRedRed(u2) && Bh(u2) == Bh(s) + 1;
    assert Balanced(sp) && NoRedRed(sp) && Bh(sp) == Bh(s) + 1;
  }

  /** The colours the red-uncle recolouring leaves: a red grandparent over the
      parent and the uncle, both black. */
  lemma RedUncleColors<N>(p: Path<N>, s: Tree<N>)
    requires !p.Top? && !p.up.Top? && Sib(p.up).T?
    ensures
      var pp := p.up;
      var g := Up(SibPath(pp, Up(p, s).(color := Black)), Sib(pp).(color := Black)).(color := Red);
      g.T? && g.color == Red && g.node == pp.node
      && g.left.T? && g.right.T? && g.left.color == Black && g.right.color == Black
      && {g.left.node, g.right.node} == {p.node, Sib(pp).node}
  {
  }

  /** Three valid subtrees of equal black height, neither of the outer two red,
      hang validly under a black position with one red child. */
  lemma OuterRedBlack<N>(a: Tree<N>, b: Tree<N>, c: Tree<N>, x: N, kx: int, y: N, ky: int)
    requires Balanced(a) && Balanced(b) && Balanced(c) && Bh(b) == Bh(a) && Bh(c) == Bh(a)
    requires NoRedRed(a) && NoRedRed(b) && NoRedRed(c) && !IsRed(b) && !IsRed(c)
    ensures var r := T(a, x, kx, Black, T(b, y, ky, Red, c));
      Balanced(r) && NoRedRed(r) && Bh(r) == Bh(a) + 1
  {
  }

  /** Mirror of `OuterRedBlack`. */
  lemma OuterRedBlackMirror<N>(a: Tree<N>, b: Tree<N>, c: Tree<N>, x: N, kx: int, y: N, ky: int)
    requires Balanced(a) && Balanced(b) && Balanced(c) && Bh(b) == Bh(c) && Bh(a) == Bh(c)
    requires NoRedRed(a) && NoRedRed(b) && NoRedRed(c) && !IsRed(a) && !IsRed(b)
    ensures var r := T(T(a, x, kx, Red, b), y, ky, Black, c);
      Balanced(r) && NoRedRed(r) && Bh(r) == Bh(c) + 1
  {
  }

  /** Four valid subtrees of equal black height, none red, hang validly as the
      grandchildren of a black position with two red children. */
  lemma SplitRedBlack<N>(a: Tree<N>, b: Tree<N>, c: Tree<N>, d: Tree<N>, x: N, kx: int, y: N, ky: int, z: N, kz: int)
    requires Balanced(a) && Balanced(b) && Balanced(c) && Balanced(d)
    requires Bh(b) == Bh(a) && Bh(c) == Bh(a) && Bh(d) == Bh(a)
    requires NoRedRed(a) && NoRedRed(b) && NoRedRed(c) && NoRedRed(d)
    requires !IsRed(a) && !IsRed(b) && !IsRed(c) && !IsRed(d)
    ensures var r := T(T(a, x, kx, Red, b), y, ky, Black, T(c, z, kz, Red, d));
      Balanced(r) && NoRedRed(r) && Bh(r) == Bh(a) + 1
  {
  }

  /** `SplitRedBlack` hung below a path that expects a black top one level higher. */
  lemma SplitRedBlackAt<N>(g: Path<N>, a: Tree<N>, b: Tree<N>, c: Tree<N>, d: Tree<N>, x: N, kx: int, y: N, ky: int, z: N, kz: int)
    requires Balanced(a) && Balanced(b) && Balanced(c) && Balanced(d)
    requires Bh(b) == Bh(a) && Bh(c) == Bh(a) && Bh(d) == Bh(a)
    requires NoRedRed(a) && NoRedRed(b) && NoRedRed(c) && NoRedRed(d)
    requires !IsRed(a) && !IsRed(b) && !IsRed(c) && !IsRed(d)
    requires BlackOK(g, Bh(a) + 1) && RedOK(g, false)
    ensures RedBlack(Plug(g, T(T(a, x, kx, Red, b), y, ky, Black, T(c, z, kz, Red, d))))
  {
    SplitRedBlack(a, b, c, d, x, kx, y, ky, z, kz);
    RedBlackPlug(g, T(T(a, x, kx, Red, b), y, ky, Black, T(c, z, kz, Red, d)));
  }

  /** Parent and red child both on the left, uncle not red: the colours of parent
      and grandparent are exchanged and the grandparent rotates right. */
  lemma LeftLeft<N>(p: Path<N>, s: Tree<N>)
    requires RedFault(p, s) && p.InLeft? && p.color == Red && p.up.InLeft? && !IsRed(Sib(p.up))
    ensures
      var pp := p.up;
      var w := Up(pp, Up(p, s).(color := Black)).(color := Red);
      w.left.T? && RedBlack(Plug(pp.up, RotateRight(w))) && Inorder(Plug(pp.up, RotateRight(w))) == Inorder(Plug(p, s))
  {
    var InLeft(P, kP, _, c, pp) := p;
    var InLeft(G, kG, _, u, g) := pp;
    var r := T(s, P, kP, Black, T(c, G, kG, Red, u));
    var before := T(T(s, P, kP, Red, c), G, kG, Black, u);
    assert RedBlack(Plug(g, r)) by {
      RedParent(p, s);
      assert BlackOK(pp, Bh(s)) && Balanced(c) && Bh(c) == Bh(s);
      assert RedOK(pp, true) && !IsRed(c) && NoRedRed(c);
      assert Balanced(u) && Bh(u) == Bh(s) && BlackOK(g, Bh(s) + 1);
      assert NoRedRed(u) && RedOK(g, false);
      OuterRedBlack(s, c, u, P, kP, G, kG);
      RedBlackPlug(g, r);
    }
    assert Inorder(Plug(g, r)) == Inorder(Plug(p, s)) by {
      RedParent(p, s);
      assert Plug(p, s) == Plug(g, before);
      InorderReplace(g, r, before);
    }
  }

  /** Parent on the left, red child on its right, uncle not red: the parent rotates
      left, then the child and the grandparent exchange colours and the
      grandparent rotates right. */
  lemma LeftRight<N>(p: Path<N>, s: Tree<N>)
    requires RedFault(p, s) && p.InRight? && p.color == Red && p.up.InLeft? && !IsRed(Sib(p.up))
    ensures
      var pp := p.up;
      var a := RotateLeft(Up(p, s));
      var w := Up(pp, a.(color := Black)).(color := Red);
      w.left.T? && RedBlack(Plug(pp.up, RotateRight(w))) && Inorder(Plug(pp.up, RotateRight(w))) == Inorder(Plug(p, s))
  {
    var InRight(b, P, kP, _, pp) := p;
    var InLeft(G, kG, _, u, g) := pp;
    var T(sl, X, kX, _, sr) := s;
    var r := T(T(b, P, kP, Red, sl), X, kX, Black, T(sr, G, kG, Red, u));
    var before := T(T(b, P, kP, Red, s), G, kG, Black, u);
    var a := RotateLeft(Up(p, s));
    assert a == T(T(b, P, kP, Red, sl), X, kX, s.color, sr);
    assert Up(pp, a.(color := Black)) == T(a.(color := Black), G, kG, pp.color, u);
    var w := Up(pp, a.(color := Black)).(color := Red);
    assert RotateRight(w) == r;
    assert RedBlack(Plug(g, r)) by {
      RedParent(p, s);
      assert BlackOK(pp, Bh(s)) && Balanced(b) && Bh(b) == Bh(s);
      assert RedOK(pp, true) && !IsRed(b) && NoRedRed(b);
      assert Balanced(u) && Bh(u) == Bh(s) && BlackOK(g, Bh(s) + 1);
      assert NoRedRed(u) && RedOK(g, false);
      SplitRedBlackAt(g, b, sl, sr, u, P, kP, X, kX, G, kG);
    }
    assert Inorder(Plug(g, r)) == Inorder(Plug(p, s)) by {
      RedParent(p, s);
      assert Plug(p, s) == Plug(g, before);
      assert Inorder(r) == Inorder(before) by {
        assert Inorder(s) == Inorder(sl) + [kX] + Inorder(sr);
      }
      InorderReplace(g, r, before);
    }
  }

  /** Parent on the right, red child on its left, uncle not red: mirror of `LeftRight`. */
  lemma RightLeft<N>(p: Path<N>, s: Tree<N>)
    requires RedFault(p, s) && p.InLeft? && p.color == Red && p.up.InRight? && !IsRed(Sib(p.up))
    ensures
      var pp := p.up;
      var a := RotateRight(Up(p, s));
      var w := Up(pp, a.(color := Black)).(color := Red);
      w.right.T? && RedBlack(Plug(pp.up, RotateLeft(w))) && Inorder(Plug(pp.up, RotateLeft(w))) == Inorder(Plug(p, s))
  {
    var InLeft(P, kP, _, b, pp) := p;
    var InRight(u, G, kG, _, g) := pp;
    var T(sl, X, kX, _, sr) := s;
    var r := T(T(u, G, kG, Red, sl), X, kX, Black, T(sr, P, kP, Red, b));
    var before := T(u, G, kG, Black, T(s, P, kP, Red, b));
    var a := RotateRight(Up(p, s));
    assert a == T(sl, X, kX, s.color, T(sr, P, kP, Red, b));
    assert Up(pp, a.(color := Black)) == T(u, G, kG, pp.color, a.(color := Black));
    var w := Up(pp, a.(color := Black)).(color := Red);
    assert RotateLeft(w) == r;
    assert RedBlack(Plug(g, r)) by {
      RedParent(p, s);
      assert BlackOK(pp, Bh(s)) && Balanced(b) && Bh(b) == Bh(s);
      assert RedOK(pp, true) && !IsRed(b) && NoRedRed(b);
      assert Balanced(u) && Bh(u) == Bh(s) && BlackOK(g, Bh(s) + 1);
      assert NoRedRed(u) && RedOK(g, false);
      SplitRedBlackAt(g, u, sl, sr, b, G, kG, X, kX, P, kP);
    }
    assert Inorder(Plug(g, r)) == Inorder(Plug(p, s)) by {
      RedParent(p, s);
      assert Plug(p, s) == Plug(g, before);
      assert Inorder(r) == Inorder(before) by {
        assert Inorder(s) == Inorder(sl) + [kX] + Inorder(sr);
      }
      InorderReplace(g, r, before);
    }
  }

  /** Parent and red child both on the right, uncle not red: mirror of `LeftLeft`. */
  lemma RightRight<N>(p: Path<N>, s: Tree<N>)
    requires RedFault(p, s) && p.InRight? && p.color == Red && p.up.InRight? && !IsRed(Sib(p.up))
    ensures
      var pp := p.up;
      var w := Up(pp, Up(p, s).(color := Black)).(color := Red);
      w.right.T? && RedBlack(Plug(pp.up, RotateLeft(w))) && Inorder(Plug(pp.up, RotateLeft(w))) == Inorder(Plug(p, s))
  {
    var InRight(c, P, kP, _, pp) := p;
    var InRight(u, G, kG, _, g) := pp;
    var r := T(T(u, G, kG, Red, c), P, kP, Black, s);
    var before := T(u, G, kG, Black, T(c, P, kP, Red, s));
    assert RedBlack(Plug(g, r)) by {
      RedParent(p, s);
      assert BlackOK(pp, Bh(s)) && Balanced(c) && Bh(c) == Bh(s);
      assert RedOK(pp, true) && !IsRed(c) && NoRedRed(c);
      assert Balanced(u) && Bh(u) == Bh(s) && BlackOK(g, Bh(s) + 1);
      assert NoRedRed(u) && RedOK(g, false);
      OuterRedBlackMirror(u, c, s, G, kG, P, kP);
      RedBlackPlug(g, r);
    }
    assert Inorder(Plug(g, r)) == Inorder(Plug(p, s)) by {
      RedParent(p, s);
      assert Plug(p, s) == Plug(g, before);
      InorderReplace(g, r, before);
    }
  }
}
