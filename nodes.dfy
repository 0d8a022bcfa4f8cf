/** The nodes of the heap implementation and the field values an abstract tree
    prescribes for them.

    `Expected(t, par, n)` is what the five fields of node `n` hold when `t` is
    stored in the heap with `par` above its root; `PathExpected(p, h, n)` is the
    same for a node of the surroundings `p` of a hole whose root is `h`.  The
    layout lemmas say, for every structural change the tree code performs,
    which nodes see which fields change. */
module Nodes {
  import opened TreeModel
  import opened RedBlackRules

  /** The fields of one node: key, colour and the three links. */
  datatype Cell = Cell(val: int, color: Color, left: Node?, right: Node?, parent: Node?)

  class Node {
    var val: int
    var color: Color
    var left: Node?
    var right: Node?
    var parent: Node?

    /** A fresh node is red and unlinked. */
    constructor (v: int)
      ensures Contents() == Cell(v, Red, null, null, null)
    {
      val := v;
      parent := null;
      left := null;
      right := null;
      color := Red;
    }

    function Contents(): Cell
      reads this
    {
      Cell(val, color, left, right, parent)
    }

    /** This node sits in the hole of the surroundings `p`: its parent is the
        node just above the hole and that node's fields are those `p` prescribes. */
    ghost predicate HangsAt(p: Path<Node>)
      reads this, parent
    {
      if p.Top? then parent == null
      else
        parent == p.node && parent != this && this != SiblingRoot(p)
        && parent.Contents() == PathExpected(p, this, p.node)
    }

    /** Whether this node is its parent's left child. */
    function IsOnLeft(ghost p: Path<Node>): (b: bool)
      reads this, parent
      requires !p.Top? && HangsAt(p)
      ensures b <==> p.InLeft?
    {
      this == parent.left
    }

    /** The other child of this node's parent, or null at the root. */
    function Sibling(ghost p: Path<Node>): (r: Node?)
      reads this, parent
      requires HangsAt(p)
      ensures r == SiblingRoot(p)
    {
      if parent == null then null
      else if IsOnLeft(p) then parent.right
      else parent.left
    }

    /** The sibling of this node's parent, or null when there is no grandparent. */
    function Uncle(ghost p: Path<Node>): (r: Node?)
      reads this, parent, if parent == null then null else parent.parent
      requires HangsAt(p) && (parent != null ==> parent.HangsAt(p.up))
      ensures r == if p.Top? then null else SiblingRoot(p.up)
    {
      if parent == null || parent.parent == null then null
      else if parent.IsOnLeft(p.up) then parent.parent.right
      else parent.parent.left
    }

    /** Whether a child of this node, which stores the top of `t`, is red. */
    function HasRedChild(ghost t: Tree<Node>): (b: bool)
      reads this, left, right
      requires Shows(t)
      ensures b <==> IsRed(t.left) || IsRed(t.right)
    {
      (left != null && left.color == Red) || (right != null && right.color == Red)
    }

    /** This node and its children hold the root of `t` and the colours of its children. */
    ghost predicate Shows(t: Tree<Node>)
      reads this, left, right
    {
      t.T? && t.node == this && left == Root(t.left) && right == Root(t.right)
      && (left != null ==> left.color == t.left.color)
      && (right != null ==> right.color == t.right.color)
    }

    /** Puts `nParent` in this node's place below its parent and hangs this node under `nParent`. */
    method MoveDown(nParent: Node, ghost p: Path<Node>)
      requires HangsAt(p) && nParent != this && nParent != parent
      modifies this, parent, nParent
      ensures Contents() == old(Contents()).(parent := nParent)
      ensures nParent.Contents() == old(nParent.Contents()).(parent := old(parent))
      ensures old(parent) != null ==>
        old(parent).Contents() == Rehang(old(parent.Contents()), p, nParent)
    {
      if parent != null {
        if IsOnLeft(p) {
          parent.left := nParent;
        } else {
          parent.right := nParent;
        }
      }
      nParent.parent := parent;
      parent := nParent;
    }
  }

  function Root(t: Tree<Node>): Node?
  {
    if t.Leaf? then null else t.node
  }

  /** The node just above the hole of `p`, or null when the hole is the root. */
  function HoleParent(p: Path<Node>): Node?
  {
    if p.Top? then null else p.node
  }

  /** The root of the subtree beside the hole. */
  function SiblingRoot(p: Path<Node>): Node?
  {
    match p
    case Top => null
    case InLeft(_, _, _, r, _) => Root(r)
    case InRight(l, _, _, _, _) => Root(l)
  }

  /** The cell with the child link on the side of the hole of `p` set to `h`. */
  function Rehang(c: Cell, p: Path<Node>, h: Node?): Cell
  {
    if p.InLeft? then c.(left := h) else c.(right := h)
  }

  /** The fields of node `n` when `t` is stored with `par` above its root. */
  function Expected(t: Tree<Node>, par: Node?, n: Node): Cell
    requires n in NodeSet(t)
    decreases t
  {
    match t
    case T(l, m, k, c, r) =>
      if m == n then Cell(k, c, Root(l), Root(r), par)
      else if n in NodeSet(l) then Expected(l, m, n)
      else Expected(r, m, n)
  }

  /** The fields of node `n` of the surroundings `p` when the hole holds a tree with root `h`. */
  function PathExpected(p: Path<Node>, h: Node?, n: Node): Cell
    requires n in PathNodes(p)
    decreases p
  {
    match p
    case InLeft(m, k, c, r, up) =>
      if m == n then Cell(k, c, h, Root(r), HoleParent(up))
      else if n in NodeSet(r) then Expected(r, m, n)
      else PathExpected(up, m, n)
    case InRight(l, m, k, c, up) =>
      if m == n then Cell(k, c, Root(l), h, HoleParent(up))
      else if n in NodeSet(l) then Expected(l, m, n)
      else PathExpected(up, m, n)
  }

  /** Storing `Plug(p, s)` stores `s` below the hole and `p` around it. */
  lemma {:induction false} ExpectedPlug(p: Path<Node>, s: Tree<Node>, n: Node)
    requires Distinct(Plug(p, s)) && n in PathNodes(p) + NodeSet(s)
    ensures n in NodeSet(Plug(p, s))
    ensures Expected(Plug(p, s), null, n) ==
      if n in NodeSet(s) then Expected(s, HoleParent(p), n) else PathExpected(p, Root(s), n)
  {
    NodesPlug(p, s);
    DistinctPlug(p, s);
    match p
    case Top =>
    case InLeft(m, k, c, r, up) =>
      ExpectedPlug(up, T(s, m, k, c, r), n);
    case InRight(l, m, k, c, up) =>
      ExpectedPlug(up, T(l, m, k, c, s), n);
  }

  /** Only the node just above the hole sees which tree the hole holds. */
  lemma PathRehang(p: Path<Node>, h1: Node?, h2: Node?, n: Node)
    requires n in PathNodes(p)
    ensures PathExpected(p, h2, n) ==
      if n == HoleParent(p) then Rehang(PathExpected(p, h1, n), p, h2) else PathExpected(p, h1, n)
  {
    match p
    case InLeft(m, k, c, r, up) =>
    case InRight(l, m, k, c, up) =>
  }

  /** Only the root of a subtree sees which node is above it. */
  lemma Reparent(t: Tree<Node>, par1: Node?, par2: Node?, n: Node)
    requires n in NodeSet(t)
    ensures Expected(t, par2, n) ==
      if n == Root(t) then Expected(t, par1, n).(parent := par2) else Expected(t, par1, n)
  {
  }

  /** Putting another subtree in the hole of `p` changes, outside the hole, only
      the child link of the node above it. */
  lemma ReplaceLayout(p: Path<Node>, s: Tree<Node>, s2: Tree<Node>, n: Node)
    requires Distinct(Plug(p, s)) && Distinct(Plug(p, s2))
    requires n in PathNodes(p) + NodeSet(s2)
    ensures n in NodeSet(Plug(p, s2))
    ensures n in NodeSet(s2) ==> Expected(Plug(p, s2), null, n) == Expected(s2, HoleParent(p), n)
    ensures n in PathNodes(p) ==>
      n in NodeSet(Plug(p, s)) &&
      Expected(Plug(p, s2), null, n) ==
        if n == HoleParent(p) then Rehang(Expected(Plug(p, s), null, n), p, Root(s2))
        else Expected(Plug(p, s), null, n)
  {
    DistinctPlug(p, s2);
    ExpectedPlug(p, s2, n);
    if n in PathNodes(p) {
      DistinctPlug(p, s);
      ExpectedPlug(p, s, n);
      PathRehang(p, Root(s), Root(s2), n);
    }
  }

  /** A left rotation at the root `x` of `s` (right child `y`, whose left subtree is `b`)
      relinks exactly `x`, `y`, the root of `b` and the node above `x`. */
  lemma RotateLeftLayout(p: Path<Node>, s: Tree<Node>, n: Node)
    requires s.T? && s.right.T? && Distinct(Plug(p, s)) && n in NodeSet(Plug(p, s))
    ensures Distinct(Plug(p, RotateLeft(s))) && n in NodeSet(Plug(p, RotateLeft(s)))
    ensures
      var before := Expected(Plug(p, s), null, n);
      var x, y, b := s.node, s.right.node, s.right.left;
      Expected(Plug(p, RotateLeft(s)), null, n) ==
        if n == x then before.(right := Root(b), parent := y)
        else if n == y then before.(left := x, parent := HoleParent(p))
        else if n == Root(b) then before.(parent := x)
        else if n == HoleParent(p) then Rehang(before, p, y)
        else before
  {
    var s2 := RotateLeft(s);
    var T(a, x, kx, cx, T(b, y, ky, cy, g)) := s;
    NodesPlug(p, s);
    DistinctPlug(p, s);
    assert NodeSet(s2) == NodeSet(s);
    DistinctPlug(p, s2);
    ReplaceLayout(p, s, s2, n);
    if n in NodeSet(s) {
      ExpectedPlug(p, s, n);
      if n in NodeSet(b) {
        Reparent(b, y, x, n);
      }
    }
  }

  /** A right rotation at the root `x` of `s` (left child `y`, whose right subtree is `b`)
      relinks exactly `x`, `y`, the root of `b` and the node above `x`. */
  lemma RotateRightLayout(p: Path<Node>, s: Tree<Node>, n: Node)
    requires s.T? && s.left.T? && Distinct(Plug(p, s)) && n in NodeSet(Plug(p, s))
    ensures Distinct(Plug(p, RotateRight(s))) && n in NodeSet(Plug(p, RotateRight(s)))
    ensures
      var before := Expected(Plug(p, s), null, n);
      var x, y, b := s.node, s.left.node, s.left.right;
      Expected(Plug(p, RotateRight(s)), null, n) ==
        if n == x then before.(left := Root(b), parent := y)
        else if n == y then before.(right := x, parent := HoleParent(p))
        else if n == Root(b) then before.(parent := x)
        else if n == HoleParent(p) then Rehang(before, p, y)
        else before
  {
    var s2 := RotateRight(s);
    var T(T(a, y, ky, cy, b), x, kx, cx, g) := s;
    NodesPlug(p, s);
    DistinctPlug(p, s);
    assert NodeSet(s2) == NodeSet(s);
    DistinctPlug(p, s2);
    ReplaceLayout(p, s, s2, n);
    if n in NodeSet(s) {
      ExpectedPlug(p, s, n);
      if n in NodeSet(b) {
        Reparent(b, y, x, n);
      }
    }
  }

  /** Recolouring changes only the colour fields of the recoloured nodes. */
  lemma {:induction false} ExpectedRecolor(t: Tree<Node>, par: Node?, m: map<Node, Color>, n: Node)
    requires n in NodeSet(t)
    ensures n in NodeSet(Recolor(t, m))
    ensures Expected(Recolor(t, m), par, n) ==
      if n in m then Expected(t, par, n).(color := m[n]) else Expected(t, par, n)
  {
    RecolorKeeps(t, m);
    match t
    case T(l, k, _, _, r) =>
      RecolorKeeps(l, m);
      if n != k {
        if n in NodeSet(l) {
          ExpectedRecolor(l, k, m, n);
        } else {
          ExpectedRecolor(r, k, m, n);
        }
      }
  }

  /** Rekeying changes only the key fields of the rekeyed nodes. */
  lemma {:induction false} ExpectedRekey(t: Tree<Node>, par: Node?, m: map<Node, int>, n: Node)
    requires n in NodeSet(t)
    ensures n in NodeSet(Rekey(t, m))
    ensures Expected(Rekey(t, m), par, n) ==
      if n in m then Expected(t, par, n).(val := m[n]) else Expected(t, par, n)
  {
    RekeyKeeps(t, m);
    match t
    case T(l, k, _, _, r) =>
      RekeyKeeps(l, m);
      if n != k {
        if n in NodeSet(l) {
          ExpectedRekey(l, k, m, n);
        } else {
          ExpectedRekey(r, k, m, n);
        }
      }
  }

  /** The tree-side facts about a left rotation at the root of `s`. */
  lemma RotateLeftShape(p: Path<Node>, s: Tree<Node>)
    requires s.T? && s.right.T? && Distinct(Plug(p, s))
    ensures
      var x, y, b, hp := s.node, s.right.node, s.right.left, HoleParent(p);
      && x != y && x != Root(b) && y != Root(b)
      && (hp != null ==> hp != x && hp != y && hp != Root(b))
      && x in NodeSet(Plug(p, s)) && y in NodeSet(Plug(p, s))
      && (b.T? ==> b.node in NodeSet(Plug(p, s)))
      && (hp != null ==> hp in NodeSet(Plug(p, s)))
    ensures NodeSet(Plug(p, RotateLeft(s))) == NodeSet(Plug(p, s))
    ensures Distinct(Plug(p, RotateLeft(s)))
    ensures Root(Plug(p, RotateLeft(s))) == if p.Top? then s.right.node else Root(Plug(p, s))
  {
    var s2 := RotateLeft(s);
    NodesPlug(p, s);
    NodesPlug(p, s2);
    DistinctPlug(p, s);
    assert NodeSet(s2) == NodeSet(s);
    DistinctPlug(p, s2);
    if !p.Top? {
      PlugRoot(p, s);
      PlugRoot(p, s2);
    }
  }

  /** The tree-side facts about a right rotation at the root of `s`. */
  lemma RotateRightShape(p: Path<Node>, s: Tree<Node>)
    requires s.T? && s.left.T? && Distinct(Plug(p, s))
    ensures
      var x, y, b, hp := s.node, s.left.node, s.left.right, HoleParent(p);
      && x != y && x != Root(b) && y != Root(b)
      && (hp != null ==> hp != x && hp != y && hp != Root(b))
      && x in NodeSet(Plug(p, s)) && y in NodeSet(Plug(p, s))
      && (b.T? ==> b.node in NodeSet(Plug(p, s)))
      && (hp != null ==> hp in NodeSet(Plug(p, s)))
    ensures NodeSet(Plug(p, RotateRight(s))) == NodeSet(Plug(p, s))
    ensures Distinct(Plug(p, RotateRight(s)))
    ensures Root(Plug(p, RotateRight(s))) == if p.Top? then s.left.node else Root(Plug(p, s))
  {
    var s2 := RotateRight(s);
    NodesPlug(p, s);
    NodesPlug(p, s2);
    DistinctPlug(p, s);
    assert NodeSet(s2) == NodeSet(s);
    DistinctPlug(p, s2);
    if !p.Top? {
      PlugRoot(p, s);
      PlugRoot(p, s2);
    }
  }

  /** The tree-side facts about hanging a new leaf `z` in the empty child at `q`. */
  lemma AttachShape(q: Path<Node>, z: Node, k: int)
    requires !q.Top? && Distinct(Plug(q, Leaf)) && z !in NodeSet(Plug(q, Leaf))
    ensures var t := Plug(q, T(Leaf, z, k, Red, Leaf));
      NodeSet(t) == NodeSet(Plug(q, Leaf)) + {z} && Distinct(t) && Root(t) == Root(Plug(q, Leaf))
    ensures q.node in NodeSet(Plug(q, Leaf)) && q.node != z
  {
    var t := T(Leaf, z, k, Red, Leaf);
    NodesPlug(q, Leaf);
    NodesPlug(q, t);
    DistinctPlug(q, Leaf);
    DistinctPlug(q, t);
    PlugRoot(q, Leaf);
    PlugRoot(q, t);
  }

  /** Hanging a new leaf `z` in the empty child at `q` relinks only `z` and the node above it. */
  lemma AttachLayout(q: Path<Node>, z: Node, k: int, m: Node)
    requires !q.Top? && Distinct(Plug(q, Leaf)) && z !in NodeSet(Plug(q, Leaf))
    requires m in NodeSet(Plug(q, Leaf)) + {z}
    ensures m in NodeSet(Plug(q, T(Leaf, z, k, Red, Leaf)))
    ensures Expected(Plug(q, T(Leaf, z, k, Red, Leaf)), null, m) ==
      if m == z then Cell(k, Red, null, null, q.node)
      else if m == q.node then Rehang(Expected(Plug(q, Leaf), null, m), q, z)
      else Expected(Plug(q, Leaf), null, m)
  {
    var t := T(Leaf, z, k, Red, Leaf);
    AttachShape(q, z, k);
    NodesPlug(q, Leaf);
    ReplaceLayout(q, Leaf, t, m);
  }

  /** The tree-side facts about replacing the position `s`, which has at most one
      child, by that child `c` (possibly empty). */
  lemma SpliceShape(p: Path<Node>, s: Tree<Node>)
    requires !p.Top? && s.T? && (s.left.Leaf? || s.right.Leaf?) && Distinct(Plug(p, s))
    ensures var c := if s.left.T? then s.left else s.right;
      && NodeSet(Plug(p, c)) == NodeSet(Plug(p, s)) - {s.node}
      && Distinct(Plug(p, c)) && Root(Plug(p, c)) == Root(Plug(p, s))
      && p.node in NodeSet(Plug(p, c)) && p.node != s.node
      && (c.T? ==> c.node != p.node && c.node != s.node)
  {
    var c := if s.left.T? then s.left else s.right;
    NodesPlug(p, s);
    NodesPlug(p, c);
    DistinctPlug(p, s);
    DistinctPlug(p, c);
    PlugRoot(p, s);
    PlugRoot(p, c);
  }

  /** Replacing the position `s` by its only child `c` (or by nothing) relinks only
      the root of `c` and the node above the position. */
  lemma SpliceLayout(p: Path<Node>, s: Tree<Node>, n: Node)
    requires !p.Top? && s.T? && (s.left.Leaf? || s.right.Leaf?) && Distinct(Plug(p, s))
    requires n in NodeSet(Plug(p, s)) - {s.node}
    ensures var c := if s.left.T? then s.left else s.right;
      var before := Expected(Plug(p, s), null, n);
      n in NodeSet(Plug(p, c)) &&
      Expected(Plug(p, c), null, n) ==
        if n == Root(c) then before.(parent := p.node)
        else if n == p.node then Rehang(before, p, Root(c))
        else before
  {
    var c := if s.left.T? then s.left else s.right;
    SpliceShape(p, s);
    NodesPlug(p, s);
    NodesPlug(p, c);
    DistinctPlug(p, s);
    ReplaceLayout(p, s, c, n);
    if n in NodeSet(c) {
      ExpectedPlug(p, s, n);
      Reparent(c, s.node, p.node, n);
    }
  }
}
