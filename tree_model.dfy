/** Abstract red-black trees of integer keys.

    A `Tree` value mirrors the node graph of the heap implementation: every
    position records the storage cell that sits there (`node`), its key and its
    colour.  A `Path` is a one-hole context (a zipper) that says how a position
    is reached from the root; `Plug(p, s)` is the whole tree with `s` at the
    position `p`.  The red-black rules are stated on trees and, for the
    rebalancing steps, on paths with a hole. */
module TreeModel {

  datatype Color = Red | Black

  datatype Tree<N> = Leaf | T(left: Tree<N>, node: N, key: int, color: Color, right: Tree<N>)

  /** The way from a position up to the root, innermost step first. */
  datatype Path<N> =
    | Top
    | InLeft(node: N, key: int, color: Color, right: Tree<N>, up: Path<N>)   // the hole is node's left child
    | InRight(left: Tree<N>, node: N, key: int, color: Color, up: Path<N>)  // the hole is node's right child

  function Plug<N>(p: Path<N>, s: Tree<N>): Tree<N>
    decreases p
  {
    match p
    case Top => s
    case InLeft(n, k, c, r, up) => Plug(up, T(s, n, k, c, r))
    case InRight(l, n, k, c, up) => Plug(up, T(l, n, k, c, s))
  }

  /** The subtree at the position just above the hole of `p` when the hole holds `s`. */
  function Up<N>(p: Path<N>, s: Tree<N>): (t: Tree<N>)
    requires !p.Top?
    ensures t.T? && t.node == p.node && t.key == p.key && t.color == p.color
    ensures (if p.InLeft? then t.left else t.right) == s
  {
    match p
    case InLeft(n, k, c, r, _) => T(s, n, k, c, r)
    case InRight(l, n, k, c, _) => T(l, n, k, c, s)
  }

  lemma PlugUp<N>(p: Path<N>, s: Tree<N>)
    requires !p.Top?
    ensures Plug(p, s) == Plug(p.up, Up(p, s))
  {
  }

  /** The subtree beside the hole of `p`. */
  function Sib<N>(p: Path<N>): Tree<N>
    requires !p.Top?
  {
    if p.InLeft? then p.right else p.left
  }

  /** The position beside the hole of `p`, when the hole holds `s`. */
  function SibPath<N>(p: Path<N>, s: Tree<N>): Path<N>
    requires !p.Top?
  {
    match p
    case InLeft(n, k, c, r, up) => InRight(s, n, k, c, up)
    case InRight(l, n, k, c, up) => InLeft(n, k, c, s, up)
  }

  lemma SibPlug<N>(p: Path<N>, s: Tree<N>)
    requires !p.Top?
    ensures Plug(SibPath(p, s), Sib(p)) == Plug(p, s)
    ensures Up(SibPath(p, s), Sib(p)) == Up(p, s)
  {
  }

  function Depth<N>(p: Path<N>): nat
  {
    match p
    case Top => 0
    case InLeft(_, _, _, _, up) => Depth(up) + 1
    case InRight(_, _, _, _, up) => Depth(up) + 1
  }

  /** The path `q`, which runs inside a subtree, continued by the path `o` to that subtree. */
  function Append<N>(q: Path<N>, o: Path<N>): Path<N>
  {
    match q
    case Top => o
    case InLeft(n, k, c, r, up) => InLeft(n, k, c, r, Append(up, o))
    case InRight(l, n, k, c, up) => InRight(l, n, k, c, Append(up, o))
  }

  lemma {:induction false} PlugAppend<N>(q: Path<N>, o: Path<N>, s: Tree<N>)
    ensures Plug(Append(q, o), s) == Plug(o, Plug(q, s))
  {
    match q
    case Top =>
    case InLeft(n, k, c, r, up) => PlugAppend(up, o, T(s, n, k, c, r));
    case InRight(l, n, k, c, up) => PlugAppend(up, o, T(l, n, k, c, s));
  }

  /** Every step of `q` goes down to a left child. */
  predicate AllLeft<N>(q: Path<N>)
  {
    match q
    case Top => true
    case InLeft(_, _, _, _, up) => AllLeft(up)
    case InRight(_, _, _, _, _) => false
  }

  // ---------------------------------------------------------------------------
  // Keys in symmetric (in-) order

  function Inorder<N>(t: Tree<N>): seq<int>
  {
    match t
    case Leaf => []
    case T(l, _, k, _, r) => Inorder(l) + [k] + Inorder(r)
  }

  /** The keys that come before the hole of `p` in symmetric order. */
  function PathLeft<N>(p: Path<N>): seq<int>
  {
    match p
    case Top => []
    case InLeft(_, _, _, _, up) => PathLeft(up)
    case InRight(l, _, k, _, up) => PathLeft(up) + Inorder(l) + [k]
  }

  /** The keys that come after the hole of `p` in symmetric order. */
  function PathRight<N>(p: Path<N>): seq<int>
  {
    match p
    case Top => []
    case InLeft(_, k, _, r, up) => [k] + Inorder(r) + PathRight(up)
    case InRight(_, _, _, _, up) => PathRight(up)
  }

  /** Regroupings of concatenated key sequences, kept apart so that the proofs
      using them do not reason about sequence associativity in a large context. */
  lemma Assoc(x: seq<int>, y: seq<int>, z: seq<int>)
    ensures x + (y + z) == (x + y) + z
  {
  }

  lemma ShiftRight(a: seq<int>, x: seq<int>, k: int, y: seq<int>, d: seq<int>)
    ensures a + (x + [k] + y) + d == a + x + ([k] + y + d)
  {
  }

  lemma ShiftLeft(a: seq<int>, y: seq<int>, k: int, x: seq<int>, d: seq<int>)
    ensures a + (y + [k] + x) + d == (a + y + [k]) + x + d
  {
  }

  lemma Regroup4(w: seq<int>, x: seq<int>, y: seq<int>, z: seq<int>)
    ensures w + x + y + z == (w + x) + (y + z)
  {
  }

  lemma Regroup(a: seq<int>, b: seq<int>, k: int, d: seq<int>, e: seq<int>)
    ensures a + (b + [k] + d) + e == (a + b) + [k] + (d + e)
  {
  }

  lemma Concat5(a: seq<int>, k: int, c: seq<int>, d: seq<int>, e: seq<int>)
    ensures (a + [k]) + [] + c + (d + e) == a + ([k] + c + d) + e
  {
  }

  lemma {:induction false} InorderPlug<N>(p: Path<N>, s: Tree<N>)
    ensures Inorder(Plug(p, s)) == PathLeft(p) + Inorder(s) + PathRight(p)
  {
    match p
    case Top =>
    case InLeft(n, k, c, r, up) =>
      InorderPlug(up, T(s, n, k, c, r));
      ShiftRight(PathLeft(up), Inorder(s), k, Inorder(r), PathRight(up));
    case InRight(l, n, k, c, up) =>
      InorderPlug(up, T(l, n, k, c, s));
      ShiftLeft(PathLeft(up), Inorder(l), k, Inorder(s), PathRight(up));
  }

  /** Subtrees with the same keys in the same order give the whole tree the same order. */
  lemma InorderReplace<N>(p: Path<N>, a: Tree<N>, b: Tree<N>)
    requires Inorder(a) == Inorder(b)
    ensures Inorder(Plug(p, a)) == Inorder(Plug(p, b))
  {
    InorderPlug(p, a);
    InorderPlug(p, b);
  }

  lemma {:induction false} AppendSides<N>(q: Path<N>, o: Path<N>)
    ensures PathLeft(Append(q, o)) == PathLeft(o) + PathLeft(q)
    ensures PathRight(Append(q, o)) == PathRight(q) + PathRight(o)
  {
    AppendLeft(q, o);
    AppendRight(q, o);
  }

  lemma {:induction false} AppendLeft<N>(q: Path<N>, o: Path<N>)
    ensures PathLeft(Append(q, o)) == PathLeft(o) + PathLeft(q)
  {
    match q
    case Top =>
    case InLeft(n, k, c, r, up) =>
      AppendLeft(up, o);
    case InRight(l, n, k, c, up) =>
      AppendLeft(up, o);
      assert PathLeft(o) + (PathLeft(up) + (Inorder(l) + [k])) == (PathLeft(o) + PathLeft(up)) + (Inorder(l) + [k]);
  }

  lemma {:induction false} AppendRight<N>(q: Path<N>, o: Path<N>)
    ensures PathRight(Append(q, o)) == PathRight(q) + PathRight(o)
  {
    match q
    case Top =>
    case InLeft(n, k, c, r, up) =>
      AppendRight(up, o);
      Assoc([k] + Inorder(r), PathRight(up), PathRight(o));
    case InRight(l, n, k, c, up) =>
      AppendRight(up, o);
  }

  function KeySet<N>(t: Tree<N>): set<int>
  {
    set k | k in Inorder(t)
  }

  /** Strictly increasing: the binary-search-tree order with duplicates excluded. */
  predicate Ascending(s: seq<int>)
  {
    forall i, j :: 0 <= i < j < |s| ==> s[i] < s[j]
  }

  /** The textbook search-tree order: every key of the left subtree is smaller and
      every key of the right subtree is larger than the key at the node. */
  predicate SearchTree<N>(t: Tree<N>)
  {
    match t
    case Leaf => true
    case T(l, _, k, _, r) =>
      (forall x :: x in Inorder(l) ==> x < k) && (forall x :: x in Inorder(r) ==> k < x)
      && SearchTree(l) && SearchTree(r)
  }

  /** A key in a strictly increasing sequence separates what precedes it from what follows. */
  lemma AscendingSplit(a: seq<int>, k: int, b: seq<int>)
    requires Ascending(a + [k] + b)
    ensures forall x :: x in a ==> x < k
    ensures forall x :: x in b ==> k < x
    ensures Ascending(a) && Ascending(b)
  {
    var s := a + [k] + b;
    forall x | x in a ensures x < k {
      var i :| 0 <= i < |a| && a[i] == x;
      assert s[i] == x && s[|a|] == k;
    }
    forall x | x in b ensures k < x {
      var i :| 0 <= i < |b| && b[i] == x;
      assert s[|a| + 1 + i] == x && s[|a|] == k;
    }
    forall i, j | 0 <= i < j < |a| ensures a[i] < a[j] {
      assert s[i] == a[i] && s[j] == a[j];
    }
    forall i, j | 0 <= i < j < |b| ensures b[i] < b[j] {
      assert s[|a| + 1 + i] == b[i] && s[|a| + 1 + j] == b[j];
    }
  }

  /** Deleting one key keeps a sequence strictly increasing and removes exactly that key. */
  lemma AscendingRemove(a: seq<int>, k: int, b: seq<int>)
    requires Ascending(a + [k] + b)
    ensures Ascending(a + b)
    ensures (set x | x in a + b) == (set x | x in a + [k] + b) - {k}
  {
    var s := a + [k] + b;
    var s' := a + b;
    forall i, j | 0 <= i < j < |s'| ensures s'[i] < s'[j] {
      var i' := if i < |a| then i else i + 1;
      var j' := if j < |a| then j else j + 1;
      assert s'[i] == s[i'] && s'[j] == s[j'];
    }
    AscendingSplit(a, k, b);
  }

  /** A key above everything before a gap and below everything after it keeps the order when put there. */
  lemma AscendingInsert(a: seq<int>, n: int, b: seq<int>)
    requires Ascending(a + b)
    requires forall x :: x in a ==> x < n
    requires forall x :: x in b ==> n < x
    ensures Ascending(a + [n] + b)
  {
    var s := a + b;
    var s' := a + [n] + b;
    forall i, j | 0 <= i < j < |s'| ensures s'[i] < s'[j] {
      if i < |a| && j < |a| {
        assert s'[i] == s[i] && s'[j] == s[j];
      } else if i > |a| && j > |a| {
        assert s'[i] == s[i - 1] && s'[j] == s[j - 1];
      } else if i < |a| && j == |a| {
        assert s'[i] == a[i] && a[i] in a;
      } else if i < |a| {
        assert s'[i] == s[i] && s'[j] == s[j - 1];
      } else {
        assert i == |a| && s'[i] == n;
        assert s'[j] == b[j - |a| - 1] && b[j - |a| - 1] in b;
      }
    }
  }

  /** A tree whose symmetric order is that of `Plug(p, s)` without the key at the
      root of `s` is in order and holds exactly one key fewer. */
  lemma DeleteKeys<N>(p: Path<N>, s: Tree<N>, t: Tree<N>)
    requires s.T? && Ascending(Inorder(Plug(p, s)))
    requires Inorder(t) == PathLeft(p) + Inorder(s.left) + Inorder(s.right) + PathRight(p)
    ensures Ascending(Inorder(t)) && KeySet(t) == KeySet(Plug(p, s)) - {s.key}
    ensures |Inorder(t)| + 1 == |Inorder(Plug(p, s))|
  {
    InorderAround(p, s);
    Regroup4(PathLeft(p), Inorder(s.left), Inorder(s.right), PathRight(p));
    KeysRemove(PathLeft(p) + Inorder(s.left), s.key, Inorder(s.right) + PathRight(p), Inorder(Plug(p, s)), Inorder(t));
  }

  lemma KeysRemove(a: seq<int>, k: int, b: seq<int>, before: seq<int>, after: seq<int>)
    requires before == a + [k] + b && after == a + b && Ascending(before)
    ensures Ascending(after) && (set x | x in after) == (set x | x in before) - {k}
    ensures |after| + 1 == |before|
  {
    AscendingRemove(a, k, b);
  }

  /** Two strictly increasing runs separated by a key between them form one. */
  lemma AscendingJoin(a: seq<int>, k: int, b: seq<int>)
    requires Ascending(a) && Ascending(b)
    requires forall x :: x in a ==> x < k
    requires forall x :: x in b ==> k < x
    ensures Ascending(a + [k] + b)
  {
    var s := a + [k] + b;
    forall i, j | 0 <= i < j < |s| ensures s[i] < s[j] {
      if j < |a| {
        assert s[i] == a[i] && s[j] == a[j];
      } else if i > |a| {
        assert s[i] == b[i - |a| - 1] && s[j] == b[j - |a| - 1];
      } else if j == |a| {
        assert s[i] == a[i] && a[i] in a;
      } else if i == |a| {
        assert s[j] == b[j - |a| - 1] && b[j - |a| - 1] in b;
      } else {
        assert s[i] == a[i] && a[i] in a;
        assert s[j] == b[j - |a| - 1] && b[j - |a| - 1] in b;
      }
    }
  }

  /** The symmetric order is strictly increasing exactly when every node's key
      lies between the keys of its left and of its right subtree. */
  lemma {:induction false} AscendingIffSearchTree<N>(t: Tree<N>)
    ensures Ascending(Inorder(t)) <==> SearchTree(t)
  {
    match t
    case Leaf =>
    case T(l, _, k, _, r) =>
      AscendingIffSearchTree(l);
      AscendingIffSearchTree(r);
      if Ascending(Inorder(t)) {
        AscendingSplit(Inorder(l), k, Inorder(r));
      }
      if SearchTree(t) {
        AscendingJoin(Inorder(l), k, Inorder(r));
      }
  }

  // ---------------------------------------------------------------------------
  // Storage cells

  function NodeSet<N(==)>(t: Tree<N>): set<N>
  {
    match t
    case Leaf => {}
    case T(l, n, _, _, r) => NodeSet(l) + {n} + NodeSet(r)
  }

  function PathNodes<N(==)>(p: Path<N>): set<N>
  {
    match p
    case Top => {}
    case InLeft(n, _, _, r, up) => {n} + NodeSet(r) + PathNodes(up)
    case InRight(l, n, _, _, up) => NodeSet(l) + {n} + PathNodes(up)
  }

  /** No storage cell occurs at two positions. */
  predicate Distinct<N(==)>(t: Tree<N>)
  {
    match t
    case Leaf => true
    case T(l, n, _, _, r) =>
      n !in NodeSet(l) && n !in NodeSet(r) && NodeSet(l) !! NodeSet(r) && Distinct(l) && Distinct(r)
  }

  predicate PathDistinct<N(==)>(p: Path<N>)
  {
    match p
    case Top => true
    case InLeft(n, _, _, r, up) =>
      n !in NodeSet(r) && n !in PathNodes(up) && NodeSet(r) !! PathNodes(up) && Distinct(r) && PathDistinct(up)
    case InRight(l, n, _, _, up) =>
      n !in NodeSet(l) && n !in PathNodes(up) && NodeSet(l) !! PathNodes(up) && Distinct(l) && PathDistinct(up)
  }

  lemma {:induction false} NodesPlug<N>(p: Path<N>, s: Tree<N>)
    ensures NodeSet(Plug(p, s)) == PathNodes(p) + NodeSet(s)
  {
    match p
    case Top =>
    case InLeft(n, k, c, r, up) => NodesPlug(up, T(s, n, k, c, r));
    case InRight(l, n, k, c, up) => NodesPlug(up, T(l, n, k, c, s));
  }

  lemma {:induction false} DistinctPlug<N>(p: Path<N>, s: Tree<N>)
    ensures Distinct(Plug(p, s)) <==> PathDistinct(p) && Distinct(s) && PathNodes(p) !! NodeSet(s)
  {
    match p
    case Top =>
    case InLeft(n, k, c, r, up) =>
      DistinctPlug(up, T(s, n, k, c, r));
    case InRight(l, n, k, c, up) =>
      DistinctPlug(up, T(l, n, k, c, s));
  }

  /** The storage cell at the root of every tree plugged into `p`. */
  function PathRoot<N>(p: Path<N>): N
    requires !p.Top?
  {
    if p.up.Top? then p.node else PathRoot(p.up)
  }

  lemma {:induction false} PlugRoot<N>(p: Path<N>, s: Tree<N>)
    requires !p.Top?
    ensures Plug(p, s).T? && Plug(p, s).node == PathRoot(p) && PathRoot(p) in PathNodes(p)
  {
    match p
    case InLeft(n, k, c, r, up) =>
      if !up.Top? {
        PlugRoot(up, T(s, n, k, c, r));
      }
    case InRight(l, n, k, c, up) =>
      if !up.Top? {
        PlugRoot(up, T(l, n, k, c, s));
      }
  }

  /** The storage cell at the leftmost position of `t`: the one with the smallest key. */
  function MinNode<N>(t: Tree<N>): N
    requires t.T?
  {
    if t.left.Leaf? then t.node else MinNode(t.left)
  }

  /** Descending only to left children from the root to a position without a left
      child reaches the leftmost position, whose key comes first in symmetric order. */
  lemma {:induction false} Leftmost<N>(q: Path<N>, s: Tree<N>)
    requires AllLeft(q) && s.T?
    ensures Plug(q, s).T? && MinNode(Plug(q, s)) == MinNode(s)
    ensures PathLeft(q) == []
    ensures s.left.Leaf? ==> Inorder(Plug(q, s)) == [s.key] + Inorder(s.right) + PathRight(q)
  {
    match q
    case Top =>
    case InLeft(n, k, c, r, up) =>
      Leftmost(up, T(s, n, k, c, r));
      InorderPlug(q, s);
  }

  // ---------------------------------------------------------------------------
  // Local restructuring

  function RotateLeft<N>(t: Tree<N>): (r: Tree<N>)
    requires t.T? && t.right.T?
    ensures Inorder(r) == Inorder(t)
  {
    T(T(t.left, t.node, t.key, t.color, t.right.left), t.right.node, t.right.key, t.right.color, t.right.right)
  }

  function RotateRight<N>(t: Tree<N>): (r: Tree<N>)
    requires t.T? && t.left.T?
    ensures Inorder(r) == Inorder(t)
  {
    T(t.left.left, t.left.node, t.left.key, t.left.color, T(t.left.right, t.node, t.key, t.color, t.right))
  }

  /** The tree with the colours of the storage cells in `m` replaced. */
  function Recolor<N(==)>(t: Tree<N>, m: map<N, Color>): Tree<N>
  {
    match t
    case Leaf => Leaf
    case T(l, n, k, c, r) => T(Recolor(l, m), n, k, if n in m then m[n] else c, Recolor(r, m))
  }

  /** The tree with the keys of the storage cells in `m` replaced. */
  function Rekey<N(==)>(t: Tree<N>, m: map<N, int>): Tree<N>
  {
    match t
    case Leaf => Leaf
    case T(l, n, k, c, r) => T(Rekey(l, m), n, if n in m then m[n] else k, c, Rekey(r, m))
  }

  /** Recolouring keeps the storage cells, their distinctness and the keys. */
  lemma {:induction false} RecolorKeeps<N>(t: Tree<N>, m: map<N, Color>)
    ensures NodeSet(Recolor(t, m)) == NodeSet(t)
    ensures Distinct(Recolor(t, m)) <==> Distinct(t)
    ensures Inorder(Recolor(t, m)) == Inorder(t)
  {
    match t
    case Leaf =>
    case T(l, n, k, c, r) =>
      RecolorKeeps(l, m);
      RecolorKeeps(r, m);
  }

  lemma {:induction false} RekeyKeeps<N>(t: Tree<N>, m: map<N, int>)
    ensures NodeSet(Rekey(t, m)) == NodeSet(t)
    ensures Distinct(Rekey(t, m)) <==> Distinct(t)
  {
    match t
    case Leaf =>
    case T(l, n, k, c, r) =>
      RekeyKeeps(l, m);
      RekeyKeeps(r, m);
  }

  lemma {:induction false} RecolorFar<N>(t: Tree<N>, m: map<N, Color>)
    requires m.Keys !! NodeSet(t)
    ensures Recolor(t, m) == t
  {
    match t
    case Leaf =>
    case T(l, n, k, c, r) =>
      RecolorFar(l, m);
      RecolorFar(r, m);
  }

  lemma {:induction false} RekeyFar<N>(t: Tree<N>, m: map<N, int>)
    requires m.Keys !! NodeSet(t)
    ensures Rekey(t, m) == t
  {
    match t
    case Leaf =>
    case T(l, n, k, c, r) =>
      RekeyFar(l, m);
      RekeyFar(r, m);
  }

  /** A recolouring of cells inside the hole leaves the surroundings alone. */
  lemma {:induction false} RecolorInside<N>(p: Path<N>, x: Tree<N>, m: map<N, Color>)
    requires m.Keys !! PathNodes(p)
    ensures Recolor(Plug(p, x), m) == Plug(p, Recolor(x, m))
  {
    match p
    case Top =>
    case InLeft(n, k, c, r, up) =>
      RecolorFar(r, m);
      RecolorInside(up, T(x, n, k, c, r), m);
    case InRight(l, n, k, c, up) =>
      RecolorFar(l, m);
      RecolorInside(up, T(l, n, k, c, x), m);
  }

  lemma {:induction false} RekeyInside<N>(p: Path<N>, x: Tree<N>, m: map<N, int>)
    requires m.Keys !! PathNodes(p)
    ensures Rekey(Plug(p, x), m) == Plug(p, Rekey(x, m))
  {
    match p
    case Top =>
    case InLeft(n, k, c, r, up) =>
      RekeyFar(r, m);
      RekeyInside(up, T(x, n, k, c, r), m);
    case InRight(l, n, k, c, up) =>
      RekeyFar(l, m);
      RekeyInside(up, T(l, n, k, c, x), m);
  }

  /** Recolouring one storage cell recolours the one position that holds it. */
  lemma RecolorAt<N>(p: Path<N>, s: Tree<N>, c: Color)
    requires s.T? && Distinct(Plug(p, s))
    ensures Recolor(Plug(p, s), map[s.node := c]) == Plug(p, s.(color := c))
  {
    DistinctPlug(p, s);
    RecolorInside(p, s, map[s.node := c]);
    RecolorFar(s.left, map[s.node := c]);
    RecolorFar(s.right, map[s.node := c]);
  }

  /** Rekeying one storage cell rekeys the one position that holds it. */
  lemma RekeyAt<N>(p: Path<N>, s: Tree<N>, k: int)
    requires s.T? && Distinct(Plug(p, s))
    ensures Rekey(Plug(p, s), map[s.node := k]) == Plug(p, s.(key := k))
  {
    DistinctPlug(p, s);
    RekeyInside(p, s, map[s.node := k]);
    RekeyFar(s.left, map[s.node := k]);
    RekeyFar(s.right, map[s.node := k]);
  }

  /** Recolouring two distinct cells at once is recolouring one after the other. */
  lemma {:induction false} RecolorTwo<N>(t: Tree<N>, a: N, ca: Color, b: N, cb: Color)
    requires a != b
    ensures Recolor(t, map[a := ca, b := cb]) == Recolor(Recolor(t, map[a := ca]), map[b := cb])
  {
    match t
    case Leaf =>
    case T(l, n, k, c, r) =>
      RecolorTwo(l, a, ca, b, cb);
      RecolorTwo(r, a, ca, b, cb);
  }

  lemma {:induction false} RekeyTwo<N>(t: Tree<N>, a: N, ka: int, b: N, kb: int)
    requires a != b
    ensures Rekey(t, map[a := ka, b := kb]) == Rekey(Rekey(t, map[a := ka]), map[b := kb])
  {
    match t
    case Leaf =>
    case T(l, n, k, c, r) =>
      RekeyTwo(l, a, ka, b, kb);
      RekeyTwo(r, a, ka, b, kb);
  }

  /** Recolouring a position and the one just above it, as one exchange of colours. */
  lemma RecolorPairAt<N>(p: Path<N>, s: Tree<N>, c1: Color, c2: Color)
    requires s.T? && !p.Top? && Distinct(Plug(p, s))
    ensures s.node != p.node
    ensures var u := Up(p, s.(color := c1));
      Recolor(Plug(p, s), map[s.node := c1, p.node := c2]) == Plug(p.up, u.(color := c2))
  {
    PlugUp(p, s);
    DistinctPlug(p.up, Up(p, s));
    RecolorTwo(Plug(p, s), s.node, c1, p.node, c2);
    RecolorAt(p, s, c1);
    RecolorKeeps(Plug(p, s), map[s.node := c1]);
    PlugUp(p, s.(color := c1));
    RecolorAt(p.up, Up(p, s.(color := c1)), c2);
  }

  // ---------------------------------------------------------------------------
  // Searching and attaching

  /** The position of the left (`toLeft`) or right child of the root of `s`, itself at `p`. */
  function Down<N>(p: Path<N>, s: Tree<N>, toLeft: bool): (q: Path<N>)
    requires s.T?
    ensures !q.Top? && q.node == s.node && q.key == s.key && q.color == s.color && q.up == p
    ensures Plug(q, if toLeft then s.left else s.right) == Plug(p, s)
  {
    if toLeft then InLeft(s.node, s.key, s.color, s.right, p) else InRight(s.left, s.node, s.key, s.color, p)
  }

  /** The keys of `Plug(p, s)` around the key at the root of `s`. */
  lemma InorderAround<N>(p: Path<N>, s: Tree<N>)
    requires s.T?
    ensures Inorder(Plug(p, s)) == (PathLeft(p) + Inorder(s.left)) + [s.key] + (Inorder(s.right) + PathRight(p))
  {
    InorderPlug(p, s);
    Regroup(PathLeft(p), Inorder(s.left), s.key, Inorder(s.right), PathRight(p));
  }

  /** Every key before the hole of `p` is below `n` and every key after it above. */
  predicate Brackets<N>(p: Path<N>, n: int)
  {
    (forall k :: k in PathLeft(p) ==> k < n) && (forall k :: k in PathRight(p) ==> n < k)
  }

  /** A search for `n` that keeps to the search order keeps `n` bracketed by the way
      it came, in an ordered tree. */
  lemma SearchStep<N>(p: Path<N>, s: Tree<N>, n: int)
    requires s.T?
    ensures Ascending(Inorder(Plug(p, s))) && Brackets(p, n) ==>
      (n < s.key ==> Brackets(Down(p, s, true), n)) && (s.key < n ==> Brackets(Down(p, s, false), n))
  {
    if Ascending(Inorder(Plug(p, s))) && Brackets(p, n) {
      InorderAround(p, s);
      AscendingSplit(PathLeft(p) + Inorder(s.left), s.key, Inorder(s.right) + PathRight(p));
      if n < s.key {
        forall k | k in PathRight(Down(p, s, true)) ensures n < k {
          assert k == s.key || k in Inorder(s.right) + PathRight(p);
        }
      }
      if s.key < n {
        forall k | k in PathLeft(Down(p, s, false)) ensures k < n {
          assert k == s.key || k in PathLeft(p) + Inorder(s.left);
        }
      }
    }
  }

  /** In an ordered tree, a search that stops at a key other than `n`, beside an
      empty child on the side of `n`, proves that `n` is absent. */
  lemma SearchMiss<N>(p: Path<N>, s: Tree<N>, n: int)
    requires s.T?
    ensures Ascending(Inorder(Plug(p, s))) && Brackets(p, n)
      && ((n < s.key && s.left.Leaf?) || (s.key < n && s.right.Leaf?))
      ==> n !in KeySet(Plug(p, s))
  {
    if Ascending(Inorder(Plug(p, s))) && Brackets(p, n) {
      InorderAround(p, s);
      AscendingSplit(PathLeft(p) + Inorder(s.left), s.key, Inorder(s.right) + PathRight(p));
    }
  }

  /** Hanging a new key `n` in the empty child where a search for it stopped
      adds exactly `n` and keeps the order. */
  lemma AttachKeys<N>(p: Path<N>, s: Tree<N>, z: N, n: int)
    requires s.T? && Ascending(Inorder(Plug(p, s))) && Brackets(p, n)
    requires (n < s.key && s.left.Leaf?) || (s.key < n && s.right.Leaf?)
    ensures var t := Plug(Down(p, s, n < s.key), T(Leaf, z, n, Red, Leaf));
      Ascending(Inorder(t)) && KeySet(t) == KeySet(Plug(p, s)) + {n}
  {
    if n < s.key {
      AttachLeftKeys(p, s, z, n);
    } else {
      AttachRightKeys(p, s, z, n);
    }
  }

  lemma AttachLeftKeys<N>(p: Path<N>, s: Tree<N>, z: N, n: int)
    requires s.T? && Ascending(Inorder(Plug(p, s))) && Brackets(p, n) && n < s.key && s.left.Leaf?
    ensures var t := Plug(Down(p, s, true), T(Leaf, z, n, Red, Leaf));
      Ascending(Inorder(t)) && KeySet(t) == KeySet(Plug(p, s)) + {n}
  {
    var t := Plug(Down(p, s, true), T(Leaf, z, n, Red, Leaf));
    AttachLeftInorder(p, s, z, n);
    AttachBefore(PathLeft(p), n, s.key, Inorder(s.right) + PathRight(p), Inorder(Plug(p, s)), Inorder(t));
  }

  lemma AttachLeftInorder<N>(p: Path<N>, s: Tree<N>, z: N, n: int)
    requires s.T? && s.left.Leaf?
    ensures var back := Inorder(s.right) + PathRight(p);
      Inorder(Plug(p, s)) == PathLeft(p) + [s.key] + back
      && Inorder(Plug(Down(p, s, true), T(Leaf, z, n, Red, Leaf))) == PathLeft(p) + [n] + ([s.key] + back)
  {
    var q := Down(p, s, true);
    var a, back := PathLeft(p), Inorder(s.right) + PathRight(p);
    assert Inorder(Plug(p, s)) == a + [s.key] + back by {
      InorderAround(p, s);
      assert PathLeft(p) + Inorder(s.left) == a;
    }
    assert Inorder(Plug(q, T(Leaf, z, n, Red, Leaf))) == a + [n] + ([s.key] + back) by {
      assert Inorder(T(Leaf, z, n, Red, Leaf)) == [n];
      InorderPlug(q, T(Leaf, z, n, Red, Leaf));
      Assoc([s.key], Inorder(s.right), PathRight(p));
      assert PathLeft(q) == a && PathRight(q) == [s.key] + back;
    }
  }

  lemma AttachRightKeys<N>(p: Path<N>, s: Tree<N>, z: N, n: int)
    requires s.T? && Ascending(Inorder(Plug(p, s))) && Brackets(p, n) && s.key < n && s.right.Leaf?
    ensures var t := Plug(Down(p, s, false), T(Leaf, z, n, Red, Leaf));
      Ascending(Inorder(t)) && KeySet(t) == KeySet(Plug(p, s)) + {n}
  {
    var t := Plug(Down(p, s, false), T(Leaf, z, n, Red, Leaf));
    AttachRightInorder(p, s, z, n);
    AttachAfter(PathLeft(p) + Inorder(s.left), s.key, n, PathRight(p), Inorder(Plug(p, s)), Inorder(t));
  }

  lemma AttachRightInorder<N>(p: Path<N>, s: Tree<N>, z: N, n: int)
    requires s.T? && s.right.Leaf?
    ensures var front := PathLeft(p) + Inorder(s.left);
      Inorder(Plug(p, s)) == front + [s.key] + PathRight(p)
      && Inorder(Plug(Down(p, s, false), T(Leaf, z, n, Red, Leaf))) == (front + [s.key]) + [n] + PathRight(p)
  {
    var q := Down(p, s, false);
    var front, b := PathLeft(p) + Inorder(s.left), PathRight(p);
    assert Inorder(Plug(p, s)) == front + [s.key] + b by {
      InorderAround(p, s);
      assert Inorder(s.right) + PathRight(p) == b;
    }
    assert Inorder(Plug(q, T(Leaf, z, n, Red, Leaf))) == (front + [s.key]) + [n] + b by {
      assert Inorder(T(Leaf, z, n, Red, Leaf)) == [n];
      InorderPlug(q, T(Leaf, z, n, Red, Leaf));
      assert PathLeft(q) == front + [s.key] && PathRight(q) == b;
    }
  }

  /** `n` put just before the key `k` that follows the gap. */
  lemma AttachBefore(a: seq<int>, n: int, k: int, b: seq<int>, before: seq<int>, after: seq<int>)
    requires before == a + [k] + b && after == a + [n] + ([k] + b) && Ascending(before) && n < k
    requires forall x :: x in a ==> x < n
    ensures Ascending(after)
    ensures (set x | x in after) == (set x | x in before) + {n}
  {
    AscendingSplit(a, k, b);
    var rest := [k] + b;
    assert before == a + rest;
    forall x | x in rest ensures n < x {
      assert x == k || x in b;
    }
    AscendingInsert(a, n, rest);
  }

  /** `n` put just after the key `k` that precedes the gap. */
  lemma AttachAfter(a: seq<int>, k: int, n: int, b: seq<int>, before: seq<int>, after: seq<int>)
    requires before == a + [k] + b && after == (a + [k]) + [n] + b && Ascending(before) && k < n
    requires forall x :: x in b ==> n < x
    ensures Ascending(after)
    ensures (set x | x in after) == (set x | x in before) + {n}
  {
    AscendingSplit(a, k, b);
    var front := a + [k];
    forall x | x in front ensures x < n {
      assert x == k || x in a;
    }
    AscendingInsert(front, n, b);
  }

  // ---------------------------------------------------------------------------
  // Deleting a position with two children

  /** Exchanging the keys of the root of `s` and of the position `m` inside its
      right subtree puts the key of `s` at `m` and leaves everything else alone. */
  lemma SwapDown<N>(p: Path<N>, s: Tree<N>, q: Path<N>, m: Tree<N>)
    requires s.T? && m.T? && Plug(q, m) == s.right && Distinct(Plug(p, s))
    ensures m.node != s.node
    ensures Rekey(Plug(p, s), map[m.node := s.key, s.node := m.key])
      == Plug(Append(q, InRight(s.left, s.node, m.key, s.color, p)), m.(key := s.key))
  {
    var o := InRight(s.left, s.node, s.key, s.color, p);
    var o2 := InRight(s.left, s.node, m.key, s.color, p);
    var m2 := m.(key := s.key);
    DistinctPlug(p, s);
    NodesPlug(q, m);
    PlugAppend(q, o, m);
    RekeyTwo(Plug(p, s), m.node, s.key, s.node, m.key);
    RekeyAt(Append(q, o), m, s.key);
    PlugAppend(q, o, m2);
    RekeyKeeps(Plug(p, s), map[m.node := s.key]);
    RekeyAt(p, T(s.left, s.node, s.key, s.color, Plug(q, m2)), m.key);
    PlugAppend(q, o2, m2);
  }

  /** After the exchange, removing the position `m` (which has no left child)
      removes exactly the key that was at the root of `s`. */
  lemma SwapDownKeys<N>(p: Path<N>, s: Tree<N>, q: Path<N>, m: Tree<N>)
    requires s.T? && m.T? && m.left.Leaf? && AllLeft(q) && Plug(q, m) == s.right
    ensures var pu := Append(q, InRight(s.left, s.node, m.key, s.color, p));
      PathLeft(pu) + Inorder(m.left) + Inorder(m.right) + PathRight(pu)
      == PathLeft(p) + Inorder(s.left) + Inorder(s.right) + PathRight(p)
  {
    var o2 := InRight(s.left, s.node, m.key, s.color, p);
    var pu := Append(q, o2);
    var A, B, C, D, E := PathLeft(p), Inorder(s.left), Inorder(m.right), PathRight(q), PathRight(p);
    assert PathLeft(pu) == A + B + [m.key] && PathRight(pu) == D + E by {
      AppendSides(q, o2);
      Leftmost(q, m);
    }
    assert Inorder(s.right) == [m.key] + C + D by {
      Leftmost(q, m);
    }
    assert Inorder(m.left) == [];
    Concat5(A + B, m.key, C, D, E);
  }
}
