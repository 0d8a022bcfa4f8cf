/** The two read-only walks over the tree: symmetric (in-order) and level order.

    `Stored(t)` says that the heap holds the keys and child links of `t`; the
    walks of the tree class read exactly that much.  `LevelKeys` is the
    breadth-first order of a queue of subtrees, the specification of the
    queue loop; `ByLevels` lists the same keys one depth at a time. */
module Traversals {
  import opened TreeModel
  import opened Nodes

  /** Every node of `t` holds its key and links to the roots of its subtrees. */
  ghost predicate Stored(t: Tree<Node>)
    reads NodeSet(t)
    decreases t
  {
    t.T? ==>
      t.node.val == t.key && t.node.left == Root(t.left) && t.node.right == Root(t.right)
      && Stored(t.left) && Stored(t.right)
  }

  /** The non-empty subtrees of `t`, left before right: what a visit queues. */
  function Children<N>(t: Tree<N>): (q: seq<Tree<N>>)
    requires t.T?
    ensures forall i :: 0 <= i < |q| ==> q[i].T?
  {
    (if t.left.T? then [t.left] else []) + (if t.right.T? then [t.right] else [])
  }

  function Size<N>(t: Tree<N>): nat
  {
    match t
    case Leaf => 0
    case T(l, _, _, _, r) => Size(l) + 1 + Size(r)
  }

  function QueueSize<N>(q: seq<Tree<N>>): nat
  {
    if q == [] then 0 else Size(q[0]) + QueueSize(q[1..])
  }

  lemma {:induction false} QueueSizeAppend<N>(a: seq<Tree<N>>, b: seq<Tree<N>>)
    ensures QueueSize(a + b) == QueueSize(a) + QueueSize(b)
  {
    if a == [] {
      assert a + b == b;
    } else {
      assert (a + b)[0] == a[0] && (a + b)[1..] == a[1..] + b;
      QueueSizeAppend(a[1..], b);
    }
  }

  /** Visiting a subtree and queueing its children makes the queue one node smaller. */
  lemma VisitShrinks<N>(q: seq<Tree<N>>)
    requires q != [] && q[0].T?
    ensures QueueSize(q[1..] + Children(q[0])) < QueueSize(q)
  {
    QueueSizeAppend(q[1..], Children(q[0]));
    var l, r := q[0].left, q[0].right;
    QueueSizeAppend(if l.T? then [l] else [], if r.T? then [r] else []);
  }

  /** The keys of a queue of subtrees in breadth-first order: the front subtree's
      key is visited and its children join the back of the queue. */
  function LevelKeys<N>(q: seq<Tree<N>>): seq<int>
    decreases QueueSize(q), |q|
  {
    if q == [] then []
    else if q[0].Leaf? then LevelKeys(q[1..])
    else
      VisitShrinks(q);
      [q[0].key] + LevelKeys(q[1..] + Children(q[0]))
  }

  /** One step of the queue walk over the heap: the front node's key is the next
      key, and queueing its non-null children, left first, keeps the node queue
      in step with the queue of subtrees. */
  lemma Visit(q: seq<Node>, qt: seq<Tree<Node>>)
    requires |q| == |qt| > 0
    requires forall i :: 0 <= i < |qt| ==> qt[i].T? && q[i] == qt[i].node && Stored(qt[i])
    ensures var t, n := qt[0], q[0];
      var q', qt' := q[1..] + (if n.left != null then [n.left] else []) + (if n.right != null then [n.right] else []),
        qt[1..] + Children(t);
      |q'| == |qt'| && (forall i :: 0 <= i < |qt'| ==> qt'[i].T? && q'[i] == qt'[i].node && Stored(qt'[i]))
      && LevelKeys(qt) == [n.val] + LevelKeys(qt') && QueueSize(qt') < QueueSize(qt)
  {
    VisitShrinks(qt);
  }

  /** The keys at the roots of a row of subtrees, left to right. */
  function Roots<N>(ts: seq<Tree<N>>): seq<int>
  {
    if ts == [] then [] else (if ts[0].T? then [ts[0].key] else []) + Roots(ts[1..])
  }

  /** The row one level further down: the non-empty children of the row, left to right. */
  function Lower<N>(ts: seq<Tree<N>>): seq<Tree<N>>
  {
    if ts == [] then [] else (if ts[0].T? then Children(ts[0]) else []) + Lower(ts[1..])
  }

  /** The keys at depth `d` of `t`, left to right. */
  function LevelAt<N>(t: Tree<N>, d: nat): seq<int>
  {
    match t
    case Leaf => []
    case T(l, _, k, _, r) => if d == 0 then [k] else LevelAt(l, d - 1) + LevelAt(r, d - 1)
  }

  /** The keys at depth `d` of a row of subtrees, left to right. */
  function LevelOf<N>(ts: seq<Tree<N>>, d: nat): seq<int>
  {
    if ts == [] then [] else LevelAt(ts[0], d) + LevelOf(ts[1..], d)
  }

  lemma {:induction false} LowerSize<N>(ts: seq<Tree<N>>)
    ensures QueueSize(Lower(ts)) + |Roots(ts)| == QueueSize(ts)
  {
    if ts != [] {
      var t := ts[0];
      LowerSize(ts[1..]);
      var c: seq<Tree<N>> := if t.T? then Children(t) else [];
      QueueSizeAppend(c, Lower(ts[1..]));
      if t.T? {
        QueueSizeAppend(if t.left.T? then [t.left] else [], if t.right.T? then [t.right] else []);
        assert QueueSize([t.left]) == Size(t.left) by { assert [t.left][1..] == []; }
        assert QueueSize([t.right]) == Size(t.right) by { assert [t.right][1..] == []; }
      }
    }
  }

  /** Breadth-first order written level by level: the keys of one row, then the
      keys of the row below it. */
  function ByLevels<N>(ts: seq<Tree<N>>): seq<int>
    decreases QueueSize(ts)
  {
    if Roots(ts) == [] then []
    else
      LowerSize(ts);
      Roots(ts) + ByLevels(Lower(ts))
  }

  /** `d` levels further down a row. */
  function LowerBy<N>(ts: seq<Tree<N>>, d: nat): seq<Tree<N>>
    decreases d
  {
    if d == 0 then ts else LowerBy(Lower(ts), d - 1)
  }

  lemma {:induction false} LevelOfAppend<N>(a: seq<Tree<N>>, b: seq<Tree<N>>, d: nat)
    ensures LevelOf(a + b, d) == LevelOf(a, d) + LevelOf(b, d)
  {
    if a == [] {
      assert a + b == b;
    } else {
      assert (a + b)[0] == a[0] && (a + b)[1..] == a[1..] + b;
      LevelOfAppend(a[1..], b, d);
    }
  }

  /** The roots of a row are its depth-0 keys, and the row below holds at depth
      `d` what the row holds at depth `d + 1`. */
  lemma {:induction false} LowerLevel<N>(ts: seq<Tree<N>>, d: nat)
    ensures Roots(ts) == LevelOf(ts, 0)
    ensures LevelOf(Lower(ts), d) == LevelOf(ts, d + 1)
  {
    if ts != [] {
      var t := ts[0];
      LowerLevel(ts[1..], d);
      var c: seq<Tree<N>> := if t.T? then Children(t) else [];
      LevelOfAppend(c, Lower(ts[1..]), d);
      if t.T? {
        var l: seq<Tree<N>> := if t.left.T? then [t.left] else [];
        var r: seq<Tree<N>> := if t.right.T? then [t.right] else [];
        LevelOfAppend(l, r, d);
        assert LevelOf(l, d) == LevelAt(t.left, d) by { assert [t.left][1..] == []; }
        assert LevelOf(r, d) == LevelAt(t.right, d) by { assert [t.right][1..] == []; }
      }
    }
  }

  /** The `d`-th row of `ByLevels` holds exactly the keys at depth `d`. */
  lemma {:induction false} LowerByLevel<N>(ts: seq<Tree<N>>, d: nat)
    ensures Roots(LowerBy(ts, d)) == LevelOf(ts, d)
    decreases d
  {
    if d == 0 {
      LowerLevel(ts, 0);
    } else {
      LowerByLevel(Lower(ts), d - 1);
      LowerLevel(ts, d - 1);
    }
  }

  lemma {:induction false} RootsAppend<N>(a: seq<Tree<N>>, b: seq<Tree<N>>)
    ensures Roots(a + b) == Roots(a) + Roots(b)
  {
    if a == [] {
      assert a + b == b;
    } else {
      assert (a + b)[0] == a[0] && (a + b)[1..] == a[1..] + b;
      RootsAppend(a[1..], b);
    }
  }

  lemma {:induction false} LowerAppend<N>(a: seq<Tree<N>>, b: seq<Tree<N>>)
    ensures Lower(a + b) == Lower(a) + Lower(b)
  {
    if a == [] {
      assert a + b == b;
    } else {
      assert (a + b)[0] == a[0] && (a + b)[1..] == a[1..] + b;
      LowerAppend(a[1..], b);
    }
  }

  /** One step of the queue walk, as an equation on the front of the queue. */
  lemma LevelKeysFront<N>(t: Tree<N>, q: seq<Tree<N>>)
    ensures LevelKeys([t] + q) == if t.Leaf? then LevelKeys(q) else [t.key] + LevelKeys(q + Children(t))
  {
    assert ([t] + q)[0] == t && ([t] + q)[1..] == q;
    if t.T? {
      VisitShrinks([t] + q);
    }
  }

  /** The queue walk over a row followed by a queue `us` visits the row's roots,
      then walks `us` followed by the row below. */
  lemma RowOne<N>(t: Tree<N>, rest: seq<Tree<N>>)
    ensures Roots([t] + rest) == (if t.T? then [t.key] else []) + Roots(rest)
    ensures Lower([t] + rest) == (if t.T? then Children(t) else []) + Lower(rest)
  {
    assert ([t] + rest)[0] == t && ([t] + rest)[1..] == rest;
  }

  lemma {:induction false} LevelKeysRow<N>(ts: seq<Tree<N>>, us: seq<Tree<N>>)
    ensures LevelKeys(ts + us) == Roots(ts) + LevelKeys(us + Lower(ts))
    decreases |ts|
  {
    if ts == [] {
      assert ts + us == us && us + Lower(ts) == us;
    } else {
      var t, rest := ts[0], ts[1..];
      assert ts + us == [t] + (rest + us) && ts == [t] + rest;
      LevelKeysFront(t, rest + us);
      RowOne(t, rest);
      if t.Leaf? {
        LevelKeysRow(rest, us);
        assert Roots(ts) == Roots(rest) && Lower(ts) == Lower(rest);
      } else {
        LevelKeysRow(rest, us + Children(t));
        assert rest + us + Children(t) == rest + (us + Children(t));
        assert us + Children(t) + Lower(rest) == us + (Children(t) + Lower(rest));
      }
    }
  }

  /** The queue walk is the level-by-level order. */
  lemma {:induction false} LevelKeysByLevels<N>(ts: seq<Tree<N>>)
    ensures LevelKeys(ts) == ByLevels(ts)
    decreases QueueSize(ts)
  {
    LevelKeysRow(ts, []);
    assert ts + [] == ts && [] + Lower(ts) == Lower(ts);
    LowerSize(ts);
    if Roots(ts) == [] {
      assert Lower(ts) == [] by { LowerEmpty(ts); }
    } else {
      LevelKeysByLevels(Lower(ts));
    }
  }

  lemma {:induction false} LowerEmpty<N>(ts: seq<Tree<N>>)
    requires Roots(ts) == []
    ensures Lower(ts) == []
  {
    if ts != [] {
      LowerEmpty(ts[1..]);
    }
  }

  /** All keys of a queue of subtrees, with multiplicity. */
  function QueueKeys<N>(q: seq<Tree<N>>): multiset<int>
  {
    if q == [] then multiset{} else multiset(Inorder(q[0])) + QueueKeys(q[1..])
  }

  lemma {:induction false} QueueKeysAppend<N>(a: seq<Tree<N>>, b: seq<Tree<N>>)
    ensures QueueKeys(a + b) == QueueKeys(a) + QueueKeys(b)
  {
    if a == [] {
      assert a + b == b;
    } else {
      assert (a + b)[0] == a[0] && (a + b)[1..] == a[1..] + b;
      QueueKeysAppend(a[1..], b);
    }
  }

  lemma QueueKeysOne<N>(t: Tree<N>)
    ensures QueueKeys(if t.T? then [t] else []) == multiset(Inorder(t))
  {
    if t.T? {
      assert [t][1..] == [];
    }
  }

  lemma ChildrenKeys<N>(t: Tree<N>)
    requires t.T?
    ensures QueueKeys(Children(t)) + multiset{t.key} == multiset(Inorder(t))
  {
    QueueKeysAppend(if t.left.T? then [t.left] else [], if t.right.T? then [t.right] else []);
    QueueKeysOne(t.left);
    QueueKeysOne(t.right);
  }

  /** The level order of a queue visits every key of every queued subtree exactly once. */
  lemma {:induction false} LevelKeysPermutes<N>(q: seq<Tree<N>>)
    ensures multiset(LevelKeys(q)) == QueueKeys(q)
    decreases QueueSize(q), |q|
  {
    if q != [] {
      var t, rest := q[0], q[1..];
      if t.Leaf? {
        LevelKeysPermutes(rest);
      } else {
        var ch := Children(t);
        VisitShrinks(q);
        assert LevelKeys(q) == [t.key] + LevelKeys(rest + ch);
        LevelKeysPermutes(rest + ch);
        QueueKeysAppend(rest, ch);
        ChildrenKeys(t);
      }
    }
  }

  /** The level order of a tree starts at its root and is a permutation of its
      symmetric order. */
  lemma LevelOrderOfTree<N>(t: Tree<N>)
    ensures multiset(LevelKeys([t])) == multiset(Inorder(t))
    ensures t.T? ==> LevelKeys([t])[0] == t.key
  {
    LevelKeysPermutes([t]);
    assert [t][1..] == [];
  }
}
