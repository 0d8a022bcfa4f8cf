/** The red-black tree object: a root pointer into a graph of `Node`s.

    The ghost field `tree` is the abstract tree the node graph stores and
    `Repr` the set of its nodes.  `Linked()` says that every node's fields are
    exactly those `tree` prescribes; `Valid()` adds the search order and the
    red-black rules. */
module RedBlackTree {
  import opened TreeModel
  import opened RedBlackRules
  import opened Nodes
  import opened DoubleBlack
  import opened Traversals

  class RBTree {
    var root: Node?
    ghost var tree: Tree<Node>
    ghost var Repr: set<Node>

    ghost predicate Linked()
      reads this, Repr
    {
      Repr == NodeSet(tree) && Distinct(tree) && root == Root(tree)
      && forall n :: n in Repr ==> n.Contents() == Expected(tree, null, n)
    }

    ghost predicate Valid()
      reads this, Repr
    {
      Linked() && Ascending(Inorder(tree)) && RedBlack(tree)
    }

    ghost function Keys(): set<int>
      reads this
    {
      KeySet(tree)
    }

    /** An empty tree. */
    constructor ()
      ensures Valid() && tree == Leaf && Keys() == {} && Repr == {}
    {
      root := null;
      tree := Leaf;
      Repr := {};
    }

    /** What the heap shows about the position `p` holding `s`. */
    lemma At(p: Path<Node>, s: Tree<Node>)
      requires Linked() && tree == Plug(p, s) && s.T?
      ensures s.node in Repr
      ensures s.node.Contents() == Cell(s.key, s.color, Root(s.left), Root(s.right), HoleParent(p))
      ensures s.node.HangsAt(p)
      ensures s.node == root <==> p.Top?
    {
      NodesPlug(p, s);
      DistinctPlug(p, s);
      ExpectedPlug(p, s, s.node);
      if !p.Top? {
        ExpectedPlug(p, s, p.node);
        PlugRoot(p, s);
      }
    }

    lemma AtRoot(p: Path<Node>, s: Tree<Node>)
      requires Linked() && tree == Plug(p, s) && s.T?
      ensures s.node in Repr && (s.node == root <==> p.Top?)
    {
      At(p, s);
    }

    /** The key and child links of the node at position `p`. */
    lemma Holds(p: Path<Node>, s: Tree<Node>)
      requires Linked() && tree == Plug(p, s) && s.T?
      ensures s.node in Repr && s.node.val == s.key
      ensures s.node.left == Root(s.left) && s.node.right == Root(s.right)
    {
      At(p, s);
    }

    /** The nodes at and around position `p` are in `Repr`. */
    lemma Owns(p: Path<Node>, s: Tree<Node>)
      requires Linked() && tree == Plug(p, s) && s.T?
      ensures s.node in Repr
      ensures !p.Top? ==> p.node in Repr
      ensures !p.Top? && Sib(p).T? ==> Sib(p).node in Repr
    {
      NodesPlug(p, s);
      if !p.Top? {
        NodesPlug(p.up, Up(p, s));
      }
    }

    /** Rotates left at `x`: its right child takes its place and `x` becomes that child's left child. */
    method LeftRotate(x: Node, ghost p: Path<Node>, ghost s: Tree<Node>)
      requires Linked() && tree == Plug(p, s) && s.T? && s.node == x && s.right.T?
      modifies this, Repr
      ensures Linked() && Repr == old(Repr)
      ensures tree == Plug(p, RotateLeft(s))
      ensures root == if old(root) == x then s.right.node else old(root)
    {
      At(p, s);
      RotateLeftShape(p, s);
      At(InRight(s.left, x, s.key, s.color, p), s.right);
      ghost var b := s.right.left;
      ghost var hp := HoleParent(p);
      var nParent := x.right;
      if x == root {
        root := nParent;
      }
      LinkLeftRotation(x, nParent, p);
      tree := Plug(p, RotateLeft(s));
      forall n | n in Repr
        ensures n.Contents() == Expected(tree, null, n)
      {
        RotateLeftLayout(p, s, n);
        assert old(n.Contents()) == Expected(old(tree), null, n);
        if n == x {
          assert n.Contents() == old(n.Contents()).(right := Root(b), parent := nParent);
        } else if n == nParent {
          assert n.Contents() == old(n.Contents()).(left := x, parent := hp);
        } else if n == Root(b) {
          assert n.Contents() == old(n.Contents()).(parent := x);
        } else if n == hp {
          assert n.Contents() == Rehang(old(n.Contents()), p, nParent);
        } else {
          assert n.Contents() == old(n.Contents());
        }
      }
    }

    /** Rotates right at `x`: its left child takes its place and `x` becomes that child's right child. */
    method RightRotate(x: Node, ghost p: Path<Node>, ghost s: Tree<Node>)
      requires Linked() && tree == Plug(p, s) && s.T? && s.node == x && s.left.T?
      modifies this, Repr
      ensures Linked() && Repr == old(Repr)
      ensures tree == Plug(p, RotateRight(s))
      ensures root == if old(root) == x then s.left.node else old(root)
    {
      At(p, s);
      RotateRightShape(p, s);
      At(InLeft(x, s.key, s.color, s.right, p), s.left);
      ghost var b := s.left.right;
      ghost var hp := HoleParent(p);
      var nParent := x.left;
      if x == root {
        root := nParent;
      }
      LinkRightRotation(x, nParent, p);
      tree := Plug(p, RotateRight(s));
      forall n | n in Repr
        ensures n.Contents() == Expected(tree, null, n)
      {
        RotateRightLayout(p, s, n);
        assert old(n.Contents()) == Expected(old(tree), null, n);
        if n == x {
          assert n.Contents() == old(n.Contents()).(left := Root(b), parent := nParent);
        } else if n == nParent {
          assert n.Contents() == old(n.Contents()).(right := x, parent := hp);
        } else if n == Root(b) {
          assert n.Contents() == old(n.Contents()).(parent := x);
        } else if n == hp {
          assert n.Contents() == Rehang(old(n.Contents()), p, nParent);
        } else {
          assert n.Contents() == old(n.Contents());
        }
      }
    }

    /** The link updates of a left rotation: `nParent`, the right child of `x`, takes
        the place of `x` and adopts it as its left child; the former left child of
        `nParent` becomes the right child of `x`. */
    method LinkLeftRotation(x: Node, nParent: Node, ghost p: Path<Node>)
      requires x.HangsAt(p) && nParent == x.right && nParent != x && nParent != x.parent
      requires nParent.left != null ==> nParent.left != x && nParent.left != nParent && nParent.left != x.parent
      modifies x, x.parent, nParent, nParent.left
      ensures x.Contents() == old(x.Contents()).(right := old(nParent.left), parent := nParent)
      ensures nParent.Contents() == old(nParent.Contents()).(left := x, parent := old(x.parent))
      ensures old(nParent.left) != null ==> old(nParent.left).Contents() == old(nParent.left.Contents()).(parent := x)
      ensures old(x.parent) != null ==> old(x.parent).Contents() == Rehang(old(x.parent.Contents()), p, nParent)
    {
      x.MoveDown(nParent, p);
      x.right := nParent.left;
      if nParent.left != null {
        nParent.left.parent := x;
      }
      nParent.left := x;
    }

    /** The link updates of a right rotation, the mirror of `LinkLeftRotation`. */
    method LinkRightRotation(x: Node, nParent: Node, ghost p: Path<Node>)
      requires x.HangsAt(p) && nParent == x.left && nParent != x && nParent != x.parent
      requires nParent.right != null ==> nParent.right != x && nParent.right != nParent && nParent.right != x.parent
      modifies x, x.parent, nParent, nParent.right
      ensures x.Contents() == old(x.Contents()).(left := old(nParent.right), parent := nParent)
      ensures nParent.Contents() == old(nParent.Contents()).(right := x, parent := old(x.parent))
      ensures old(nParent.right) != null ==> old(nParent.right).Contents() == old(nParent.right.Contents()).(parent := x)
      ensures old(x.parent) != null ==> old(x.parent).Contents() == Rehang(old(x.parent.Contents()), p, nParent)
    {
      x.MoveDown(nParent, p);
      x.left := nParent.right;
      if nParent.right != null {
        nParent.right.parent := x;
      }
      nParent.right := x;
    }

    /** A single colour store into the node at position `p`. */
    method Paint(x: Node, c: Color, ghost p: Path<Node>, ghost s: Tree<Node>)
      requires Linked() && tree == Plug(p, s) && s.T? && s.node == x
      modifies this, x
      ensures Linked() && Repr == old(Repr)
      ensures tree == Plug(p, s.(color := c))
    {
      At(p, s);
      RecolorAt(p, s, c);
      x.color := c;
      tree := Recolor(tree, map[x := c]);
      RecolorKeeps(old(tree), map[x := c]);
      forall n | n in Repr
        ensures n.Contents() == Expected(tree, null, n)
      {
        ExpectedRecolor(old(tree), null, map[x := c], n);
      }
    }

    /** Exchanges the colours of `x1` and `x2`. */
    method SwapColors(x1: Node, x2: Node)
      requires Linked() && x1 in Repr && x2 in Repr
      modifies this, x1, x2
      ensures Linked() && Repr == old(Repr)
      ensures tree == Recolor(old(tree), map[x1 := old(x2.color), x2 := old(x1.color)])
    {
      ghost var m := map[x1 := x2.color, x2 := x1.color];
      var temp := x1.color;
      x1.color := x2.color;
      x2.color := temp;
      tree := Recolor(tree, m);
      RecolorKeeps(old(tree), m);
      forall n | n in Repr
        ensures n.Contents() == Expected(tree, null, n)
      {
        ExpectedRecolor(old(tree), null, m, n);
      }
    }

    /** Exchanges the keys of `u` and `v`. */
    method SwapValues(u: Node, v: Node)
      requires Linked() && u in Repr && v in Repr
      modifies this, u, v
      ensures Linked() && Repr == old(Repr)
      ensures tree == Rekey(old(tree), map[u := old(v.val), v := old(u.val)])
    {
      ghost var m := map[u := v.val, v := u.val];
      var temp := u.val;
      u.val := v.val;
      v.val := temp;
      tree := Rekey(tree, m);
      RekeyKeeps(old(tree), m);
      forall n | n in Repr
        ensures n.Contents() == Expected(tree, null, n)
      {
        ExpectedRekey(old(tree), null, m, n);
      }
    }
 
    /** Repairs a red node `x` whose parent may be red: recolours while the
        uncle is red, then rotates once or twice. */
    method FixRedRed(x: Node, ghost p: Path<Node>, ghost s: Tree<Node>)
      requires Linked() && tree == Plug(p, s) && RedFault(p, s) && s.node == x
      modifies this, Repr
      ensures Linked() && Repr == old(Repr)
      ensures RedBlack(tree) && Inorder(tree) == Inorder(old(tree))
      decreases Depth(p)
    {
      At(p, s);
      if x == root {
        Paint(x, Black, p, s);
        RedFaultDone(p, s);
        return;
      }
      ghost var pp := p.up;
      ghost var up := Up(p, s);
      PlugUp(p, s);
      At(pp, up);
      var parent := x.parent;
      var grandparent := parent.parent;
      var uncle := x.Uncle(p);
      if parent.color != Black {
        RedParent(p, s);
        Owns(pp, up);
        SibColor(pp, up);
        if uncle != null && uncle.color == Red {
          ghost var g := RecolorRedUncle(parent, uncle, grandparent, p, s);
          assert Depth(pp.up) < Depth(pp) < Depth(p);
          FixRedRed(grandparent, pp.up, g);
        } else {
          RestructureRedRed(x, parent, grandparent, p, s);
        }
      } else {
        RedFaultDone(p, s);
      }
    }
 
    /** The colour stored in the sibling of the hole of `p`. */
    lemma SibColor(p: Path<Node>, s: Tree<Node>)
      requires Linked() && tree == Plug(p, s) && !p.Top?
      ensures Sib(p).T? ==> Sib(p).node in Repr && Sib(p).node.color == Sib(p).color
    {
      SibPlug(p, s);
      if Sib(p).T? {
        At(SibPath(p, s), Sib(p));
      }
    }

    /** The red-uncle case of `FixRedRed`: parent and uncle turn black and the
        grandparent red, which moves the fault two levels up. */
    method RecolorRedUncle(parent: Node, uncle: Node, grandparent: Node, ghost p: Path<Node>, ghost s: Tree<Node>)
      returns (ghost g: Tree<Node>)
      requires Linked() && tree == Plug(p, s) && RedFault(p, s)
      requires !p.Top? && p.color == Red && !p.up.Top? && IsRed(Sib(p.up))
      requires parent == p.node && grandparent == p.up.node && uncle == Sib(p.up).node
      modifies this, parent, uncle, grandparent
      ensures Linked() && Repr == old(Repr)
      ensures tree == Plug(p.up.up, g) && RedFault(p.up.up, g) && g.node == grandparent
      ensures g.T? && g.color == Red && g.left.T? && g.right.T?
      ensures g.left.color == Black && g.right.color == Black && {g.left.node, g.right.node} == {parent, uncle}
      ensures var a, u := Up(p, s), Sib(p.up);
        a.T? && u.T? && g == Up(SibPath(p.up, a.(color := Black)), u.(color := Black)).(color := Red)
      ensures Inorder(tree) == Inorder(old(tree))
    {
      RedParent(p, s);
      RedUncle(p, s);
      RedUncleColors(p, s);
      ghost var pp := p.up;
      ghost var up := Up(p, s);
      PlugUp(p, s);
      PlugUp(pp, up);
      ghost var u := Sib(pp);
      ghost var sp := up.(color := Black);
      Paint(parent, Black, pp, up);
      SibPlug(pp, sp);
      Paint(uncle, Black, SibPath(pp, sp), u);
      ghost var u2 := u.(color := Black);
      PlugUp(SibPath(pp, sp), u2);
      g := Up(SibPath(pp, sp), u2);
      Paint(grandparent, Red, pp.up, g);
      g := g.(color := Red);
      InorderPlug(pp.up, g);
      InorderPlug(pp.up, Up(pp, up));
    }

    /** The rotations of `FixRedRed` once the uncle of the red `x` is not red:
        parent and child on the same side rotate once, on different sides twice. */
    method RestructureRedRed(x: Node, parent: Node, grandparent: Node, ghost p: Path<Node>, ghost s: Tree<Node>)
      requires Linked() && tree == Plug(p, s) && RedFault(p, s) && s.node == x
      requires !p.Top? && p.color == Red && !p.up.Top? && !IsRed(Sib(p.up))
      requires parent == p.node && grandparent == p.up.node
      modifies this, Repr
      ensures Linked() && Repr == old(Repr)
      ensures RedBlack(tree) && Inorder(tree) == Inorder(old(tree))
      // the tree each of the four cases leaves: rotations and colour swaps as in the source
      ensures p.up.InLeft? && p.InLeft? ==>
        var a := Up(p, s); a.T? && var w := Up(p.up, a.(color := Black));
        w.T? && tree == Plug(p.up.up, RotateRight(w.(color := Red)))
      ensures p.up.InLeft? && p.InRight? ==>
        var a := RotateLeft(Up(p, s)); a.T? && var w := Up(p.up, a.(color := Black));
        w.T? && tree == Plug(p.up.up, RotateRight(w.(color := Red)))
      ensures p.up.InRight? && p.InLeft? ==>
        var a := RotateRight(Up(p, s)); a.T? && var w := Up(p.up, a.(color := Black));
        w.T? && tree == Plug(p.up.up, RotateLeft(w.(color := Red)))
      ensures p.up.InRight? && p.InRight? ==>
        var a := Up(p, s); a.T? && var w := Up(p.up, a.(color := Black));
        w.T? && tree == Plug(p.up.up, RotateLeft(w.(color := Red)))
    {
      RedParent(p, s);
      ghost var pp := p.up;
      ghost var up := Up(p, s);
      At(p, s);
      PlugUp(p, s);
      At(pp, up);
      PlugUp(pp, up);
      At(pp.up, Up(pp, up));
      ghost var w;
      if parent.IsOnLeft(pp) {
        if x.IsOnLeft(p) {
          LeftLeft(p, s);
          SwapColors(parent, grandparent);
          RecolorPairAt(pp, up, Black, Red);
          w := Up(pp, up.(color := Black)).(color := Red);
        } else {
          LeftRight(p, s);
          LeftRotate(parent, pp, up);
          At(pp, RotateLeft(up));
          PlugUp(pp, RotateLeft(up));
          At(pp.up, Up(pp, RotateLeft(up)));
          SwapColors(x, grandparent);
          RecolorPairAt(pp, RotateLeft(up), Black, Red);
          w := Up(pp, RotateLeft(up).(color := Black)).(color := Red);
        }
        RightRotate(grandparent, pp.up, w);
      } else {
        if x.IsOnLeft(p) {
          RightLeft(p, s);
          RightRotate(parent, pp, up);
          At(pp, RotateRight(up));
          PlugUp(pp, RotateRight(up));
          At(pp.up, Up(pp, RotateRight(up)));
          SwapColors(x, grandparent);
          RecolorPairAt(pp, RotateRight(up), Black, Red);
          w := Up(pp, RotateRight(up).(color := Black)).(color := Red);
        } else {
          RightRight(p, s);
          SwapColors(parent, grandparent);
          RecolorPairAt(pp, up, Black, Red);
          w := Up(pp, up.(color := Black)).(color := Red);
        }
        LeftRotate(grandparent, pp.up, w);
      }
    }
 
    /** The root node: null exactly for the empty tree. */
    function GetRoot(): (r: Node?)
      reads this, Repr
      requires Linked()
      ensures r == null <==> Keys() == {}
      ensures r != null ==> r in Repr && r.val == tree.key && r.parent == null
    {
      if root == null then null
      else
        At(Top, tree);
        assert tree.key in Inorder(tree);
        assert tree.key in Keys();
        root
    }

    /** The heap holds the keys and child links of every subtree of `tree`. */
    lemma {:induction false} StoredAt(p: Path<Node>, s: Tree<Node>)
      requires Linked() && tree == Plug(p, s)
      ensures Stored(s)
      decreases s
    {
      if s.T? {
        At(p, s);
        StoredAt(Down(p, s, true), s.left);
        StoredAt(Down(p, s, false), s.right);
      }
    }

    /** The keys below `x`, the root of `s`, in symmetric order. */
    function InorderOf(x: Node?, ghost s: Tree<Node>): (r: seq<int>)
      reads NodeSet(s)
      requires Stored(s) && x == Root(s)
      ensures r == Inorder(s)
      decreases s
    {
      if x == null then [] else InorderOf(x.left, s.left) + [x.val] + InorderOf(x.right, s.right)
    }

    /** The keys below `x`, the root of `s`, level by level: a queue holds the nodes
        still to visit; each visit takes the front and queues its children, left first. */
    method LevelOrder(x: Node?, ghost s: Tree<Node>) returns (r: seq<int>)
      requires Stored(s) && x == Root(s)
      ensures r == LevelKeys([s])
    {
      r := [];
      if x == null {
        return;
      }
      var q: seq<Node> := [x];
      ghost var qt: seq<Tree<Node>> := [s];
      while q != []
        invariant |q| == |qt|
        invariant forall i :: 0 <= i < |qt| ==> qt[i].T? && q[i] == qt[i].node && Stored(qt[i])
        invariant r + LevelKeys(qt) == LevelKeys([s])
        decreases QueueSize(qt), |qt|
      {
        var curr := q[0];
        ghost var t := qt[0];
        Visit(q, qt);
        q := q[1..];
        r := r + [curr.val];
        if curr.left != null {
          q := q + [curr.left];
        }
        if curr.right != null {
          q := q + [curr.right];
        }
        qt := qt[1..] + Children(t);
      }
    }

    /** Walks down from the root towards `n`: stops at the node holding `n`, or at the
        node whose empty child is where `n` would hang; null only for the empty tree. */
    method Search(n: int) returns (temp: Node?, ghost p: Path<Node>, ghost s: Tree<Node>)
      requires Linked()
      ensures temp == null <==> tree.Leaf?
      ensures temp != null ==> tree == Plug(p, s) && s.T? && s.node == temp && temp.val == s.key && temp in Repr
      ensures temp != null ==>
        temp.val == n || (n < temp.val && s.left.Leaf?) || (temp.val < n && s.right.Leaf?)
      ensures temp != null && Ascending(Inorder(tree)) ==> Brackets(p, n)
      ensures Ascending(Inorder(tree)) ==> (n in Keys() <==> temp != null && temp.val == n)
    {
      temp := root;
      p, s := Top, tree;
      while temp != null
        invariant tree == Plug(p, s) && temp == Root(s)
        invariant temp == null ==> p.Top?
        invariant Ascending(Inorder(tree)) ==> Brackets(p, n)
        decreases s
      {
        Holds(p, s);
        SearchStep(p, s, n);
        if n < temp.val {
          if temp.left == null {
            break;
          } else {
            p, s := Down(p, s, true), s.left;
            temp := temp.left;
          }
        } else if n == temp.val {
          break;
        } else {
          if temp.right == null {
            break;
          } else {
            p, s := Down(p, s, false), s.right;
            temp := temp.right;
          }
        }
      }
      if temp != null {
        Holds(p, s);
        SearchMiss(p, s, n);
        InorderPlug(p, s);
      }
    }

    /** Adds `n` unless it is already present: a new red node hangs where the search
        stopped and the red-red repair follows; into an empty tree it goes as a black root. */
    method Insert(n: int)
      requires Valid()
      modifies this, Repr
      ensures Valid()
      ensures Keys() == old(Keys()) + {n}
      ensures n in old(Keys()) ==> tree == old(tree) && Repr == old(Repr)
      ensures old(tree).Leaf? ==> tree.T? && tree.left.Leaf? && tree.right.Leaf? && tree.color == Black && tree.key == n
      ensures fresh(Repr - old(Repr)) && old(Repr) <= Repr
    {
      var newNode := new Node(n);
      if root == null {
        newNode.color := Black;
        root := newNode;
        tree := T(Leaf, newNode, n, Black, Leaf);
        Repr := {newNode};
        return;
      }
      var temp, p, s := Search(n);
      if temp.val == n {
        return;
      }
      AttachKeys(p, s, newNode, n);
      AttachRedFault(p, s, n < s.key, newNode, n);
      Hang(newNode, temp, p, s);
      ghost var q := Down(p, s, n < s.key);
      ghost var z := T(Leaf, newNode, n, Red, Leaf);
      FixRedRed(newNode, q, z);
    }
 
    /** Links the new red node `z` below `temp`, on the side where its key belongs. */
    method Hang(z: Node, temp: Node, ghost p: Path<Node>, ghost s: Tree<Node>)
      requires Linked() && tree == Plug(p, s) && s.T? && s.node == temp && z !in Repr
      requires z.Contents() == Cell(z.val, Red, null, null, null)
      requires (z.val < s.key && s.left.Leaf?) || (s.key < z.val && s.right.Leaf?)
      modifies this, z, temp
      ensures Linked() && Repr == old(Repr) + {z} && z.val == old(z.val)
      ensures tree == Plug(Down(p, s, z.val < s.key), T(Leaf, z, z.val, Red, Leaf))
    {
      At(p, s);
      ghost var q := Down(p, s, z.val < s.key);
      AttachShape(q, z, z.val);
      z.parent := temp;
      if z.val < temp.val {
        temp.left := z;
      } else {
        temp.right := z;
      }
      tree := Plug(q, T(Leaf, z, z.val, Red, Leaf));
      Repr := Repr + {z};
      forall m | m in Repr
        ensures m.Contents() == Expected(tree, null, m)
      {
        AttachLayout(q, z, z.val, m);
        if m == z {
          assert m.Contents() == Cell(z.val, Red, null, null, temp);
        } else if m == temp {
          assert old(m.Contents()) == Expected(old(tree), null, m);
          assert m.Contents() == Rehang(old(m.Contents()), q, z);
        } else {
          assert old(m.Contents()) == Expected(old(tree), null, m);
          assert m.Contents() == old(m.Contents());
        }
      }
    }

    /** What the heap shows about the node at position `p` and the colours of its children. */
    lemma ShowsAt(p: Path<Node>, s: Tree<Node>)
      requires Linked() && tree == Plug(p, s) && s.T?
      ensures s.node.Shows(s)
    {
      At(p, s);
      if s.left.T? {
        At(Down(p, s, true), s.left);
      }
      if s.right.T? {
        At(Down(p, s, false), s.right);
      }
    }

    /** Repairs the black height at `x`, whose position carries one black node fewer
        than its surroundings expect: walks up while the sibling and both its
        children are black, rotating once at a red sibling and once or twice at a
        red child of the sibling.  `x` keeps its subtree, its parent and its side. */
    method FixDoubleBlack(x: Node, ghost p: Path<Node>, ghost s: Tree<Node>, ghost h: nat) returns (ghost q: Path<Node>)
      requires Linked() && tree == Plug(p, s) && s.T? && s.node == x && Short(p, h)
      modifies this, Repr
      ensures Linked() && Repr == old(Repr)
      ensures tree == Plug(q, s) && Fits(q, h)
      ensures PathLeft(q) == PathLeft(p) && PathRight(q) == PathRight(p)
      ensures q.Top? == p.Top? && (!p.Top? ==> q.node == p.node && q.InLeft? == p.InLeft?)
      decreases Depth(p) + (if !p.Top? && p.color == Black then 2 else 0), 1
    {
      At(p, s);
      if x == root {
        q := p;
        return;
      }
      var sibling := x.Sibling(p);
      var parent := x.parent;
      ShortSibling(p, h);
      ghost var S := Sib(p);
      SibPlug(p, s);
      At(SibPath(p, s), S);
      if sibling == null {
        assert false;
      } else if sibling.color == Red {
        ghost var p2 := RedSiblingStep(sibling, parent, p, s, h);
        q := FixDoubleBlack(x, p2, s, h);
      } else {
        ShowsAt(SibPath(p, s), S);
        if sibling.HasRedChild(S) {
          RedNephewStep(sibling, parent, p, s, h);
          q := NephewPath(p, Black);
        } else {
          q := BlackNephewsStep(x, sibling, parent, p, s, h);
        }
      }
    }

    /** Black sibling with black children: the sibling turns red; a black parent is
        then short in turn and gets the repair, a red parent turns black. */
    method BlackNephewsStep(x: Node, sibling: Node, parent: Node, ghost p: Path<Node>, ghost s: Tree<Node>, ghost h: nat)
        returns (ghost q: Path<Node>)
      requires Linked() && tree == Plug(p, s) && s.T? && s.node == x && Short(p, h) && !p.Top?
      requires Sib(p).T? && !IsRed(Sib(p)) && !IsRed(Sib(p).left) && !IsRed(Sib(p).right)
      requires sibling == Sib(p).node && parent == p.node
      modifies this, Repr
      ensures Linked() && Repr == old(Repr)
      ensures tree == Plug(q, s) && Fits(q, h)
      ensures PathLeft(q) == PathLeft(p) && PathRight(q) == PathRight(p)
      ensures !q.Top? && q.node == p.node && q.InLeft? == p.InLeft?
      ensures Sib(q) == Sib(p).(color := Red)
      decreases Depth(p) + (if p.color == Black then 2 else 0), 0
    {
      ghost var S := Sib(p);
      Owns(p, s);
      SibPlug(p, s);
      Paint(sibling, Red, SibPath(p, s), S);
      ghost var w := WithSib(p, S.(color := Red));
      WithSibPlug(p, s, S.(color := Red));
      BlackNephews(p, h);
      PlugUp(w, s);
      At(w.up, Up(w, s));
      if parent.color == Black {
        ghost var q2 := FixDoubleBlack(parent, w.up, Up(w, s), h + 1);
        BlackNephewsAfter(p, h, q2);
        q := w.(up := q2);
        PlugUp(q, s);
      } else {
        Paint(parent, Black, w.up, Up(w, s));
        q := w.(color := Black);
        PlugUp(q, s);
      }
    }

    /** Red sibling: the parent turns red and the sibling black, and a rotation at the
        parent makes the sibling's inner child the new sibling of `x`. */
    method RedSiblingStep(sibling: Node, parent: Node, ghost p: Path<Node>, ghost s: Tree<Node>, ghost h: nat)
        returns (ghost p2: Path<Node>)
      requires Linked() && tree == Plug(p, s) && s.T? && Short(p, h) && !p.Top?
      requires IsRed(Sib(p)) && sibling == Sib(p).node && parent == p.node
      modifies this, Repr
      ensures Linked() && Repr == old(Repr)
      ensures p.color == Black && p2 == RedSiblingPath(p) && tree == Plug(p2, s) && Short(p2, h)
      ensures PathLeft(p2) == PathLeft(p) && PathRight(p2) == PathRight(p)
    {
      ghost var S := Sib(p);
      PlugUp(p, s);
      At(p.up, Up(p, s));
      Paint(parent, Red, p.up, Up(p, s));
      ghost var pr := p.(color := Red);
      PlugUp(pr, s);
      SibPlug(pr, s);
      At(SibPath(pr, s), S);
      Paint(sibling, Black, SibPath(pr, s), S);
      ghost var pb := WithSib(pr, S.(color := Black));
      WithSibPlug(pr, s, S.(color := Black));
      SibPlug(pb, s);
      At(SibPath(pb, s), Sib(pb));
      PlugUp(pb, s);
      if sibling.IsOnLeft(SibPath(pb, s)) {
        RedSiblingLeft(p, s, h);
        RightRotate(parent, p.up, Up(pb, s));
      } else {
        RedSiblingRight(p, s, h);
        LeftRotate(parent, p.up, Up(pb, s));
      }
      p2 := RedSiblingPath(p);
    }

    /** Black sibling with a red child: one or two rotations bring that child into
        play, then the parent turns black. */
    method RedNephewStep(sibling: Node, parent: Node, ghost p: Path<Node>, ghost s: Tree<Node>, ghost h: nat)
      requires Linked() && tree == Plug(p, s) && s.T? && Short(p, h) && !p.Top?
      requires Sib(p).T? && !IsRed(Sib(p)) && (IsRed(Sib(p).left) || IsRed(Sib(p).right))
      requires sibling == Sib(p).node && parent == p.node
      modifies this, Repr
      ensures Linked() && Repr == old(Repr)
      ensures tree == Plug(NephewPath(p, Black), s) && Fits(NephewPath(p, Black), h)
      ensures PathLeft(NephewPath(p, Black)) == PathLeft(p) && PathRight(NephewPath(p, Black)) == PathRight(p)
    {
      ghost var S := Sib(p);
      SibPlug(p, s);
      ShowsAt(SibPath(p, s), S);
      At(SibPath(p, s), S);
      RedNephew(p, h);
      if sibling.left != null && sibling.left.color == Red {
        if sibling.IsOnLeft(SibPath(p, s)) {
          LeftLeftStep(sibling, parent, p, s);
        } else {
          RightLeftStep(sibling, parent, p, s);
        }
      } else {
        if sibling.IsOnLeft(SibPath(p, s)) {
          LeftRightStep(sibling, parent, p, s);
        } else {
          RightRightStep(sibling, parent, p, s);
        }
      }
      ghost var n2 := NephewPath(p, p.color);
      PlugUp(n2, s);
      At(n2.up, Up(n2, s));
      Paint(parent, Black, n2.up, Up(n2, s));
      PlugUp(NephewPath(p, Black), s);
    }

    /** `x` on the left, the sibling's left child red: that child takes the parent's
        colour, then a right rotation at the sibling and a left rotation at the parent. */
    method RightLeftStep(sibling: Node, parent: Node, ghost p: Path<Node>, ghost s: Tree<Node>)
      requires Linked() && tree == Plug(p, s) && s.T? && p.InLeft?
      requires p.right.T? && !IsRed(p.right) && IsRed(p.right.left)
      requires sibling == p.right.node && parent == p.node
      modifies this, Repr
      ensures Linked() && Repr == old(Repr)
      ensures tree == Plug(NephewPath(p, p.color), s)
    {
      ghost var S := p.right;
      ghost var sq := SibPath(p, s);
      SibPlug(p, s);
      At(sq, S);
      PlugUp(p, s);
      At(p.up, Up(p, s));
      At(Down(sq, S, true), S.left);
      Paint(sibling.left, parent.color, Down(sq, S, true), S.left);
      ghost var S1 := S.(left := S.left.(color := p.color));
      assert tree == Plug(sq, S1);
      RightRotate(sibling, sq, S1);
      ghost var p1 := p.(right := RotateRight(S1));
      assert tree == Plug(p1, s);
      PlugUp(p1, s);
      LeftRotate(parent, p.up, Up(p1, s));
    }

    /** `x` on the left, the sibling's right child red: that child turns black, the
        sibling takes the parent's colour, then a left rotation at the parent. */
    method RightRightStep(sibling: Node, parent: Node, ghost p: Path<Node>, ghost s: Tree<Node>)
      requires Linked() && tree == Plug(p, s) && s.T? && p.InLeft?
      requires p.right.T? && !IsRed(p.right) && !IsRed(p.right.left) && IsRed(p.right.right)
      requires sibling == p.right.node && parent == p.node
      modifies this, Repr
      ensures Linked() && Repr == old(Repr)
      ensures tree == Plug(NephewPath(p, p.color), s)
    {
      ghost var S := p.right;
      ghost var sq := SibPath(p, s);
      SibPlug(p, s);
      At(sq, S);
      At(Down(sq, S, false), S.right);
      Paint(sibling.right, sibling.color, Down(sq, S, false), S.right);
      ghost var S1 := S.(right := S.right.(color := Black));
      ghost var p0 := p.(right := S1);
      assert tree == Plug(sq, S1) == Plug(p0, s);
      PlugUp(p0, s);
      At(p.up, Up(p0, s));
      At(sq, S1);
      Paint(sibling, parent.color, sq, S1);
      ghost var p1 := p.(right := S1.(color := p.color));
      assert tree == Plug(p1, s);
      PlugUp(p1, s);
      LeftRotate(parent, p.up, Up(p1, s));
    }

    /** `x` on the right, the sibling's left child red: that child turns black, the
        sibling takes the parent's colour, then a right rotation at the parent. */
    method LeftLeftStep(sibling: Node, parent: Node, ghost p: Path<Node>, ghost s: Tree<Node>)
      requires Linked() && tree == Plug(p, s) && s.T? && p.InRight?
      requires p.left.T? && !IsRed(p.left) && IsRed(p.left.left)
      requires sibling == p.left.node && parent == p.node
      modifies this, Repr
      ensures Linked() && Repr == old(Repr)
      ensures tree == Plug(NephewPath(p, p.color), s)
    {
      ghost var S := p.left;
      ghost var sq := SibPath(p, s);
      SibPlug(p, s);
      At(sq, S);
      At(Down(sq, S, true), S.left);
      Paint(sibling.left, sibling.color, Down(sq, S, true), S.left);
      ghost var S1 := S.(left := S.left.(color := Black));
      ghost var p0 := p.(left := S1);
      assert tree == Plug(sq, S1) == Plug(p0, s);
      PlugUp(p0, s);
      At(p.up, Up(p0, s));
      At(sq, S1);
      Paint(sibling, parent.color, sq, S1);
      ghost var p1 := p.(left := S1.(color := p.color));
      assert tree == Plug(p1, s);
      PlugUp(p1, s);
      RightRotate(parent, p.up, Up(p1, s));
    }

    /** `x` on the right, the sibling's right child red: that child takes the parent's
        colour, then a left rotation at the sibling and a right rotation at the parent. */
    method LeftRightStep(sibling: Node, parent: Node, ghost p: Path<Node>, ghost s: Tree<Node>)
      requires Linked() && tree == Plug(p, s) && s.T? && p.InRight?
      requires p.left.T? && !IsRed(p.left) && !IsRed(p.left.left) && IsRed(p.left.right)
      requires sibling == p.left.node && parent == p.node
      modifies this, Repr
      ensures Linked() && Repr == old(Repr)
      ensures tree == Plug(NephewPath(p, p.color), s)
    {
      ghost var S := p.left;
      ghost var sq := SibPath(p, s);
      SibPlug(p, s);
      At(sq, S);
      PlugUp(p, s);
      At(p.up, Up(p, s));
      At(Down(sq, S, false), S.right);
      Paint(sibling.right, parent.color, Down(sq, S, false), S.right);
      ghost var S1 := S.(right := S.right.(color := p.color));
      assert tree == Plug(sq, S1);
      LeftRotate(sibling, sq, S1);
      ghost var p1 := p.(left := RotateLeft(S1));
      assert tree == Plug(p1, s);
      PlugUp(p1, s);
      RightRotate(parent, p.up, Up(p1, s));
    }

    /** Walks to the left from `x` as long as there is a left child: the node reached
        holds the smallest key of the subtree at `x`. */
    method Successor(x: Node, ghost p: Path<Node>, ghost s: Tree<Node>)
        returns (temp: Node, ghost q: Path<Node>, ghost m: Tree<Node>)
      requires Linked() && tree == Plug(p, s) && s.T? && s.node == x
      ensures AllLeft(q) && Plug(q, m) == s && m.T? && m.node == temp && m.left.Leaf?
      ensures tree == Plug(Append(q, p), m) && temp in Repr && temp.val == m.key
      ensures temp == MinNode(s)
      ensures Inorder(s) == [temp.val] + Inorder(m.right) + PathRight(q)
    {
      temp := x;
      q, m := Top, s;
      At(p, s);
      while temp.left != null
        invariant AllLeft(q) && Plug(q, m) == s && m.T? && m.node == temp
        invariant tree == Plug(Append(q, p), m) && MinNode(m) == MinNode(s)
        invariant temp.left == Root(m.left)
        decreases m
      {
        q, m := InLeft(m.node, m.key, m.color, m.right, q), m.left;
        temp := temp.left;
        At(Append(q, p), m);
      }
      At(Append(q, p), m);
      Leftmost(q, m);
    }

    /** The node that takes the place of `x` when `x` is deleted: the node with the
        next larger key when `x` has two children, its only child when it has
        one, and none when it is a leaf.  `q` and `m` give the replacement's position. */
    method BSTReplace(x: Node, ghost p: Path<Node>, ghost s: Tree<Node>)
        returns (u: Node?, ghost q: Path<Node>, ghost m: Tree<Node>)
      requires Linked() && tree == Plug(p, s) && s.T? && s.node == x
      ensures u == null <==> s.left.Leaf? && s.right.Leaf?
      ensures s.left.T? && s.right.T? ==>
        AllLeft(q) && Plug(q, m) == s.right && m.T? && m.node == u && m.left.Leaf?
        && u in Repr && u.val == m.key && u == MinNode(s.right) && Inorder(s.right) == [m.key] + Inorder(m.right) + PathRight(q)
      ensures s.left.Leaf? != s.right.Leaf? ==> m == (if s.left.T? then s.left else s.right) && u == m.node
    {
      At(p, s);
      if x.left != null && x.right != null {
        At(Down(p, s, false), s.right);
        u, q, m := Successor(x.right, Down(p, s, false), s.right);
        return;
      }
      if x.left == null && x.right == null {
        return null, Top, Leaf;
      }
      if x.left != null {
        return x.left, Top, s.left;
      } else {
        return x.right, Top, s.right;
      }
    }

    /** Unlinks `v`, which has at most one child, from its parent and hangs that
        child `u` (or nothing) in its place. */
    method Splice(v: Node, parent: Node, u: Node?, ghost p: Path<Node>, ghost s: Tree<Node>)
      requires Linked() && tree == Plug(p, s) && s.T? && s.node == v && !p.Top? && parent == p.node
      requires s.left.Leaf? || s.right.Leaf?
      requires u == Root(if s.left.T? then s.left else s.right)
      modifies this, parent, u
      ensures Linked() && Repr == old(Repr) - {v} && v in old(Repr)
      ensures tree == Plug(p, if s.left.T? then s.left else s.right)
    {
      ghost var c := if s.left.T? then s.left else s.right;
      At(p, s);
      SpliceShape(p, s);
      if v.IsOnLeft(p) {
        parent.left := u;
      } else {
        parent.right := u;
      }
      if u != null {
        u.parent := parent;
      }
      tree := Plug(p, c);
      Repr := Repr - {v};
      forall n | n in Repr
        ensures n.Contents() == Expected(tree, null, n)
      {
        SpliceLayout(p, s, n);
        assert old(n.Contents()) == Expected(old(tree), null, n);
        if n == u {
          assert n.Contents() == old(n.Contents()).(parent := parent);
        } else if n == parent {
          assert n.Contents() == Rehang(old(n.Contents()), p, u);
        } else {
          assert n.Contents() == old(n.Contents());
        }
      }
    }

    /** Deletes the key `n`: nothing happens when the tree is empty or `n` is absent;
        otherwise the node the search finds goes. */
    method DeleteByVal(n: int)
      requires Valid()
      modifies this, Repr
      ensures Valid()
      ensures Keys() == old(Keys()) - {n}
      ensures n !in old(Keys()) ==> tree == old(tree) && Repr == old(Repr)
      ensures n in old(Keys()) ==> |Inorder(tree)| + 1 == |old(Inorder(tree))| && |Repr| + 1 == |old(Repr)|
      ensures Repr <= old(Repr)
    {
      if root == null {
        return;
      }
      var v, p, s := Search(n);
      if v.val != n {
        return;
      }
      ghost var gone := DeleteNode(v, p, s);
      DeleteKeys(p, s, tree);
    }

    /** Deletes the node `v` from the tree.  A leaf is unlinked; a node with one
        child is replaced by that child; a node with two children exchanges keys
        with its successor, which is then deleted instead.  The key at `v`'s
        position disappears and no other. */
    method DeleteNode(v: Node, ghost p: Path<Node>, ghost s: Tree<Node>) returns (ghost gone: Node)
      requires Linked() && RedBlack(tree) && tree == Plug(p, s) && s.T? && s.node == v
      modifies this, Repr
      ensures Linked() && RedBlack(tree)
      ensures Inorder(tree) == PathLeft(p) + Inorder(s.left) + Inorder(s.right) + PathRight(p)
      ensures gone in old(Repr) && Repr == old(Repr) - {gone}
      decreases if s.left.T? && s.right.T? then 1 else 0, 1
    {
      At(p, s);
      var u, q, m := BSTReplace(v, p, s);
      if u != null && (s.left.Leaf? != s.right.Leaf?) {
        At(Down(p, s, s.left.T?), m);
      }
      var uvBlack := (u == null || u.color == Black) && v.color == Black;
      var parent := v.parent;
      if u == null {
        RemoveLeaf(v, parent, uvBlack, p, s);
        return v;
      }
      if v.left == null || v.right == null {
        gone := RemoveWithChild(v, parent, u, uvBlack, p, s);
        return;
      }
      gone := DeleteSuccessor(v, u, p, s, q, m);
    }

    /** The two-child case of `DeleteNode`: `v` takes the key of its in-order
        successor `u`, which has no left child, and `u` is deleted in its place. */
    method DeleteSuccessor(v: Node, u: Node, ghost p: Path<Node>, ghost s: Tree<Node>, ghost q: Path<Node>, ghost m: Tree<Node>)
        returns (ghost gone: Node)
      requires Linked() && RedBlack(tree) && tree == Plug(p, s) && s.T? && s.node == v
      requires s.left.T? && s.right.T? && AllLeft(q) && Plug(q, m) == s.right
      requires m.T? && m.node == u && m.left.Leaf? && u in Repr && u.val == m.key
      modifies this, Repr
      ensures Linked() && RedBlack(tree)
      ensures Inorder(tree) == PathLeft(p) + Inorder(s.left) + Inorder(s.right) + PathRight(p)
      ensures gone in old(Repr) && Repr == old(Repr) - {gone}
      decreases 1, 0
    {
      Holds(p, s);
      SwapDown(p, s, q, m);
      ghost var pu := Append(q, InRight(s.left, v, m.key, s.color, p));
      ghost var before := tree;
      SwapValues(u, v);
      RekeyRules(before, map[u := s.key, v := m.key]);
      gone := DeleteNode(u, pu, m.(key := s.key));
      SwapDownKeys(p, s, q, m);
    }

    /** Deletes the leaf `v`: the whole tree when it is the root; otherwise a black
        leaf first gets the double-black repair, a red leaf's sibling (red as well,
        when there is one) is painted red, and the parent drops the link to `v`. */
    method RemoveLeaf(v: Node, parent: Node?, uvBlack: bool, ghost p: Path<Node>, ghost s: Tree<Node>)
      requires Linked() && RedBlack(tree) && tree == Plug(p, s) && s.T? && s.node == v
      requires s.left.Leaf? && s.right.Leaf? && uvBlack == (s.color == Black) && parent == HoleParent(p)
      modifies this, Repr
      ensures Linked() && RedBlack(tree)
      ensures Inorder(tree) == PathLeft(p) + Inorder(s.left) + Inorder(s.right) + PathRight(p)
      ensures Repr == old(Repr) - {v} && v in old(Repr)
    {
      AtRoot(p, s);
      if v == root {
        ClearRoot(v, p, s);
        return;
      }
      if uvBlack {
        RemoveBlackLeaf(v, parent, p, s);
      } else {
        RemoveRedLeaf(v, parent, p, s);
      }
    }

    /** The leaf `v` is the root: the tree becomes empty. */
    method ClearRoot(v: Node, ghost p: Path<Node>, ghost s: Tree<Node>)
      requires Linked() && tree == Plug(p, s) && s.T? && s.node == v && p.Top?
      requires s.left.Leaf? && s.right.Leaf?
      modifies this
      ensures Linked() && RedBlack(tree)
      ensures Inorder(tree) == PathLeft(p) + Inorder(s.left) + Inorder(s.right) + PathRight(p)
      ensures Repr == old(Repr) - {v} && v in old(Repr)
    {
      root := null;
      tree := Leaf;
      Repr := {};
    }

    /** A black leaf below `parent`: the double-black repair at `v`, then the unlinking. */
    method RemoveBlackLeaf(v: Node, parent: Node, ghost p: Path<Node>, ghost s: Tree<Node>)
      requires Linked() && RedBlack(tree) && tree == Plug(p, s) && s.T? && s.node == v
      requires s.left.Leaf? && s.right.Leaf? && s.color == Black && !p.Top? && parent == p.node
      modifies this, Repr
      ensures Linked() && RedBlack(tree)
      ensures Inorder(tree) == PathLeft(p) + PathRight(p)
      ensures Repr == old(Repr) - {v} && v in old(Repr)
    {
      Owns(p, s);
      BlackLeafShort(p, s);
      ghost var q := FixDoubleBlack(v, p, s, 0);
      FitsLeaf(q);
      Unlink(v, parent, q, s);
    }

    /** A red leaf below `parent`: its sibling, if any, is painted red (it already
        is), then the unlinking. */
    method RemoveRedLeaf(v: Node, parent: Node, ghost p: Path<Node>, ghost s: Tree<Node>)
      requires Linked() && RedBlack(tree) && tree == Plug(p, s) && s.T? && s.node == v
      requires s.left.Leaf? && s.right.Leaf? && s.color == Red && !p.Top? && parent == p.node
      modifies this, Repr
      ensures Linked() && RedBlack(tree)
      ensures Inorder(tree) == PathLeft(p) + PathRight(p)
      ensures Repr == old(Repr) - {v} && v in old(Repr)
    {
      Owns(p, s);
      RedLeaf(p, s);
      RedSibling(v, p, s);
      Unlink(v, parent, p, s);
    }

    /** Paints the sibling of the red leaf `v`, if there is one, red; it already is. */
    method RedSibling(v: Node, ghost p: Path<Node>, ghost s: Tree<Node>)
      requires Linked() && tree == Plug(p, s) && s.T? && s.node == v && !p.Top?
      requires Sib(p).T? ==> Sib(p).color == Red
      modifies this, Repr
      ensures Linked() && Repr == old(Repr) && tree == old(tree)
    {
      At(p, s);
      Owns(p, s);
      SibPlug(p, s);
      if v.Sibling(p) != null {
        Paint(v.Sibling(p), Red, SibPath(p, s), Sib(p));
      }
    }

    /** The parent of the leaf `v` drops its link to it; the tree without that leaf
        must already obey the rules. */
    method Unlink(v: Node, parent: Node, ghost p: Path<Node>, ghost s: Tree<Node>)
      requires Linked() && tree == Plug(p, s) && s.T? && s.node == v && !p.Top? && parent == p.node
      requires s.left.Leaf? && s.right.Leaf? && RedBlack(Plug(p, Leaf))
      modifies this, parent
      ensures Linked() && RedBlack(tree)
      ensures Inorder(tree) == PathLeft(p) + PathRight(p)
      ensures Repr == old(Repr) - {v} && v in old(Repr)
    {
      Owns(p, s);
      Splice(v, parent, null, p, s);
      assert tree == Plug(p, Leaf);
      InorderPlug(p, Leaf);
    }

    /** Deletes `v`, whose only child is `u`.  At the root, `u`'s key moves into `v`
        and `v` loses its children; elsewhere `u` takes `v`'s place and turns black.
        The child of a one-child node is always a red leaf, so the case of both
        being black cannot arise. */
    method RemoveWithChild(v: Node, parent: Node?, u: Node, uvBlack: bool, ghost p: Path<Node>, ghost s: Tree<Node>)
      returns (ghost gone: Node)
      requires Linked() && RedBlack(tree) && tree == Plug(p, s) && s.T? && s.node == v
      requires s.left.Leaf? != s.right.Leaf? && parent == HoleParent(p)
      requires u == Root(if s.left.T? then s.left else s.right)
      requires uvBlack == (u.color == Black && v.color == Black)
      modifies this, Repr
      ensures Linked() && RedBlack(tree)
      ensures Inorder(tree) == PathLeft(p) + Inorder(s.left) + Inorder(s.right) + PathRight(p)
      ensures gone in old(Repr) && Repr == old(Repr) - {gone}
    {
      At(p, s);
      OneChild(p, s);
      if v == root {
        PullUpChild(v, u, p, s);
        gone := u;
      } else {
        ghost var c := if s.left.T? then s.left else s.right;
        At(Down(p, s, s.left.T?), c);
        Owns(p, s);
        if uvBlack {
          assert false;
        }
        ReplaceByChild(v, parent, u, p, s);
        gone := v;
      }
    }

    /** `v` is the root with the single child `u`: `u`'s key moves into `v`, which
        loses its children. */
    method PullUpChild(v: Node, u: Node, ghost p: Path<Node>, ghost s: Tree<Node>)
      requires Linked() && RedBlack(tree) && tree == Plug(p, s) && s.T? && s.node == v && p.Top?
      requires s.left.Leaf? != s.right.Leaf?
      requires u == Root(if s.left.T? then s.left else s.right)
      modifies this, v
      ensures Linked() && RedBlack(tree)
      ensures Inorder(tree) == Inorder(s.left) + Inorder(s.right)
      ensures Repr == old(Repr) - {u} && u in old(Repr) && v in Repr
    {
      ghost var c := if s.left.T? then s.left else s.right;
      At(p, s);
      At(Down(p, s, s.left.T?), c);
      OneChild(p, s);
      v.val := u.val;
      v.left := null;
      v.right := null;
      tree := T(Leaf, v, c.key, s.color, Leaf);
      Repr := {v};
    }

    /** `v` hangs below `parent` with the single child `u`, a red leaf: `u` takes
        `v`'s place and turns black. */
    method ReplaceByChild(v: Node, parent: Node, u: Node, ghost p: Path<Node>, ghost s: Tree<Node>)
      requires Linked() && RedBlack(tree) && tree == Plug(p, s) && s.T? && s.node == v && !p.Top?
      requires s.left.Leaf? != s.right.Leaf? && parent == p.node
      requires u == Root(if s.left.T? then s.left else s.right)
      modifies this, parent, u
      ensures Linked() && RedBlack(tree)
      ensures Inorder(tree) == PathLeft(p) + Inorder(s.left) + Inorder(s.right) + PathRight(p)
      ensures tree == Plug(p, (if s.left.T? then s.left else s.right).(color := Black))
      ensures Repr == old(Repr) - {v} && v in old(Repr)
    {
      ghost var c := if s.left.T? then s.left else s.right;
      OneChild(p, s);
      Splice(v, parent, u, p, s);
      Paint(u, Black, p, c);
      ChildInorder(p, s);
    }
  }
}
