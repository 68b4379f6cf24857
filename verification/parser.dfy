/**
 * The document tree and its pre-order walk. A node is its data (its kind and
 * payload) and its ordered children; the walk calls a callback on a node,
 * then walks each child in order.
 */
module Parser {

  /** A node of the document tree with its ordered children. */
  datatype Tree<L> = Node(data: L, children: seq<Tree<L>>)

  /** The number of nodes in a tree. */
  function Size<L>(t: Tree<L>): nat
    decreases t
  {
    1 + SizeAll(t.children)
  }

  /** The number of nodes in a forest. */
  function SizeAll<L>(ts: seq<Tree<L>>): nat
    decreases ts
  {
    if ts == [] then 0 else Size(ts[0]) + SizeAll(ts[1..])
  }

  /**
   * The nodes a walk from `t` hands to its callback, in order: `t` first,
   * then the walk of every child. Each node of `t` is visited once.
   */
  function Visit<L>(t: Tree<L>): (r: seq<Tree<L>>)
    decreases t
    ensures |r| == Size(t)
    ensures r[0] == t
    ensures t.children == [] ==> r == [t]
  {
    [t] + VisitAll(t.children)
  }

  /** The walks of a forest, one tree after the other. */
  function VisitAll<L>(ts: seq<Tree<L>>): (r: seq<Tree<L>>)
    decreases ts
    ensures |r| == SizeAll(ts)
  {
    if ts == [] then [] else Visit(ts[0]) + VisitAll(ts[1..])
  }

  /**
   * The walk with a callback: `f` is the callback, seen as a transformer of
   * the state `s` it may affect. The node is passed to `f`, then each child
   * is walked in order. The callback sees only the subtree it is given and
   * does not change the tree.
   */
  function IterNodes<L, S>(t: Tree<L>, f: (S, Tree<L>) -> S, s: S): S
    decreases t
  {
    IterNodesAll(t.children, f, f(s, t))
  }

  /** The walk with a callback over the children of a node, in order. */
  function IterNodesAll<L, S>(ts: seq<Tree<L>>, f: (S, Tree<L>) -> S, s: S): S
    decreases ts
  {
    if ts == [] then s else IterNodesAll(ts[1..], f, IterNodes(ts[0], f, s))
  }

  /** The state reached by calling `f` on each of `nodes` in turn. */
  function CallEach<L, S>(f: (S, Tree<L>) -> S, s: S, nodes: seq<Tree<L>>): S
    decreases |nodes|
  {
    if nodes == [] then s else CallEach(f, f(s, nodes[0]), nodes[1..])
  }

  /** Calling `f` on `a + b` is calling it on `a`, then on `b`. */
  lemma {:induction false} CallEachAppend<L, S>(f: (S, Tree<L>) -> S, s: S, a: seq<Tree<L>>, b: seq<Tree<L>>)
    ensures CallEach(f, s, a + b) == CallEach(f, CallEach(f, s, a), b)
    decreases |a|
  {
    if a != [] {
      assert (a + b)[0] == a[0] && (a + b)[1..] == a[1..] + b;
      CallEachAppend(f, f(s, a[0]), a[1..], b);
    } else {
      assert a + b == b;
    }
  }

  /**
   * The walk calls its callback exactly on the nodes of `Visit(t)`, in that
   * order, whatever state the callback changes. The tree is a value, so the
   * callback cannot change the tree's links or node data.
   */
  lemma {:induction false} IterNodesCallsInVisitOrder<L, S>(t: Tree<L>, f: (S, Tree<L>) -> S, s: S)
    ensures IterNodes(t, f, s) == CallEach(f, s, Visit(t))
    decreases t, 1
  {
    IterNodesAllCallsInVisitOrder(t.children, f, f(s, t));
    assert Visit(t)[1..] == VisitAll(t.children);
  }

  /** The forest counterpart of `IterNodesCallsInVisitOrder`. */
  lemma {:induction false} IterNodesAllCallsInVisitOrder<L, S>(ts: seq<Tree<L>>, f: (S, Tree<L>) -> S, s: S)
    ensures IterNodesAll(ts, f, s) == CallEach(f, s, VisitAll(ts))
    decreases ts, 0
  {
    if ts != [] {
      IterNodesCallsInVisitOrder(ts[0], f, s);
      IterNodesAllCallsInVisitOrder(ts[1..], f, IterNodes(ts[0], f, s));
      CallEachAppend(f, s, Visit(ts[0]), VisitAll(ts[1..]));
    }
  }

  /** The concatenation of a sequence of sequences. */
  function Flatten<T>(ss: seq<seq<T>>): seq<T>
    decreases |ss|
  {
    if ss == [] then [] else ss[0] + Flatten(ss[1..])
  }

  /** The walks of each tree of a forest, as a sequence of visit sequences. */
  function ChildVisits<L>(ts: seq<Tree<L>>): seq<seq<Tree<L>>>
  {
    seq(|ts|, i requires 0 <= i < |ts| => Visit(ts[i]))
  }

  /** The walk of a forest is the concatenation of the walks of its trees. */
  lemma {:induction false} VisitAllIsFlatten<L>(ts: seq<Tree<L>>)
    ensures VisitAll(ts) == Flatten(ChildVisits(ts))
    decreases |ts|
  {
    if ts != [] {
      VisitAllIsFlatten(ts[1..]);
      assert ChildVisits(ts)[1..] == ChildVisits(ts[1..]);
    }
  }

  /**
   * The walk of a node is the node itself followed by the concatenation of
   * its children's walks, in child order.
   */
  lemma VisitIsPreorder<L>(t: Tree<L>)
    ensures Visit(t) == [t] + Flatten(ChildVisits(t.children))
  {
    VisitAllIsFlatten(t.children);
  }

  /** The first `i` trees of a forest and the next one make its first `i + 1`. */
  lemma SizeAllPrefix<L>(ts: seq<Tree<L>>, i: nat)
    requires i < |ts|
    ensures SizeAll(ts[..i + 1]) == SizeAll(ts[..i]) + Size(ts[i])
    decreases i
  {
    if i > 0 {
      assert ts[..i + 1][1..] == ts[1..][..i];
      assert ts[..i][1..] == ts[1..][..i - 1];
      SizeAllPrefix(ts[1..], i - 1);
    }
  }

  /**
   * In the walk of a forest, the walk of tree `i` is one contiguous block
   * that starts after the walks of the trees before it.
   */
  lemma {:induction false} ForestBlock<L>(ts: seq<Tree<L>>, i: nat)
    requires i < |ts|
    ensures SizeAll(ts[..i]) + Size(ts[i]) <= |VisitAll(ts)|
    ensures VisitAll(ts)[SizeAll(ts[..i]) .. SizeAll(ts[..i]) + Size(ts[i])] == Visit(ts[i])
    decreases i
  {
    if i == 0 {
      assert ts[..0] == [];
    } else {
      assert ts[..i][1..] == ts[1..][..i - 1];
      ForestBlock(ts[1..], i - 1);
    }
  }

  /**
   * Child `i`'s whole subtree is walked as one contiguous block of the
   * node's walk, starting right after the node and its earlier siblings'
   * subtrees, and the next sibling's block starts where it ends.
   */
  lemma ChildSubtreeWalkedBeforeNextSibling<L>(t: Tree<L>, i: nat)
    requires i < |t.children|
    ensures 1 + SizeAll(t.children[..i]) + Size(t.children[i]) <= |Visit(t)|
    ensures Visit(t)[1 + SizeAll(t.children[..i]) .. 1 + SizeAll(t.children[..i]) + Size(t.children[i])]
            == Visit(t.children[i])
    ensures 1 + SizeAll(t.children[..i]) + Size(t.children[i]) == 1 + SizeAll(t.children[..i + 1])
  {
    ForestBlock(t.children, i);
    SizeAllPrefix(t.children, i);
    assert Visit(t)[1..] == VisitAll(t.children);
  }

  // Positions: a node of a tree is named by the child indices leading to it.

  /** `p` leads from the root of `t` to one of its nodes. */
  predicate ValidPath<L>(t: Tree<L>, p: seq<nat>)
    decreases |p|
  {
    p == [] || (p[0] < |t.children| && ValidPath(t.children[p[0]], p[1..]))
  }

  /** The node of `t` that `p` leads to. */
  function At<L>(t: Tree<L>, p: seq<nat>): Tree<L>
    requires ValidPath(t, p)
    decreases |p|
  {
    if p == [] then t else At(t.children[p[0]], p[1..])
  }

  /** Every path of `ps`, extended at the front by child index `i`. */
  function Prepend(i: nat, ps: seq<seq<nat>>): (r: seq<seq<nat>>)
    ensures |r| == |ps|
    ensures forall j :: 0 <= j < |ps| ==> r[j] == [i] + ps[j]
  {
    seq(|ps|, j requires 0 <= j < |ps| => [i] + ps[j])
  }

  /** The paths of the nodes of `t`, in pre-order. */
  function Positions<L>(t: Tree<L>): seq<seq<nat>>
    decreases t, 1
  {
    [[]] + PositionsFrom(t, 0)
  }

  /** The paths of the nodes under children `i`, `i + 1`, ... of `t`, in pre-order. */
  function PositionsFrom<L>(t: Tree<L>, i: nat): seq<seq<nat>>
    requires i <= |t.children|
    decreases t, 0, |t.children| - i
  {
    if i == |t.children| then []
    else Prepend(i, Positions(t.children[i])) + PositionsFrom(t, i + 1)
  }

  /** Following child `i` and then `q` leads to the node `q` leads to from child `i`. */
  lemma AtCons<L>(t: Tree<L>, i: nat, q: seq<nat>)
    requires i < |t.children| && ValidPath(t.children[i], q)
    ensures ValidPath(t, [i] + q) && At(t, [i] + q) == At(t.children[i], q)
  {
  }

  /** Position `j` of the pre-order names node `j` of the walk. */
  lemma {:induction false} PositionsMatchVisit<L>(t: Tree<L>)
    ensures |Positions(t)| == |Visit(t)|
    ensures forall j :: 0 <= j < |Positions(t)| ==>
              ValidPath(t, Positions(t)[j]) && At(t, Positions(t)[j]) == Visit(t)[j]
    decreases t, 1
  {
    PositionsFromMatchVisit(t, 0);
    assert t.children[0..] == t.children;
  }

  /** The counterpart of `PositionsMatchVisit` for the children from `i` on. */
  lemma {:induction false} PositionsFromMatchVisit<L>(t: Tree<L>, i: nat)
    requires i <= |t.children|
    ensures |PositionsFrom(t, i)| == |VisitAll(t.children[i..])|
    ensures forall j :: 0 <= j < |PositionsFrom(t, i)| ==>
              ValidPath(t, PositionsFrom(t, i)[j]) && At(t, PositionsFrom(t, i)[j]) == VisitAll(t.children[i..])[j]
    decreases t, 0, |t.children| - i
  {
    if i < |t.children| {
      var c := t.children[i];
      var head, tail := Prepend(i, Positions(c)), PositionsFrom(t, i + 1);
      assert t.children[i..][1..] == t.children[i + 1..];
      assert VisitAll(t.children[i..]) == Visit(c) + VisitAll(t.children[i + 1..]);
      PositionsMatchVisit(c);
      PositionsFromMatchVisit(t, i + 1);
      forall j | 0 <= j < |head|
        ensures ValidPath(t, head[j]) && At(t, head[j]) == Visit(c)[j]
      {
        AtCons(t, i, Positions(c)[j]);
      }
    }
  }

  /** Every path from child `i` on starts with an index of at least `i`. */
  lemma {:induction false} PositionsFromHeads<L>(t: Tree<L>, i: nat)
    requires i <= |t.children|
    ensures forall j :: 0 <= j < |PositionsFrom(t, i)| ==>
              PositionsFrom(t, i)[j] != [] && PositionsFrom(t, i)[j][0] >= i
    decreases |t.children| - i
  {
    if i < |t.children| {
      PositionsFromHeads(t, i + 1);
    }
  }

  /** No two positions of the pre-order are the same path. */
  lemma {:induction false} PositionsDistinct<L>(t: Tree<L>)
    ensures forall j, k :: 0 <= j < k < |Positions(t)| ==> Positions(t)[j] != Positions(t)[k]
    decreases t, 1
  {
    PositionsFromDistinct(t, 0);
    PositionsFromHeads(t, 0);
  }

  /** The counterpart of `PositionsDistinct` for the children from `i` on. */
  lemma {:induction false} PositionsFromDistinct<L>(t: Tree<L>, i: nat)
    requires i <= |t.children|
    ensures forall j, k :: 0 <= j < k < |PositionsFrom(t, i)| ==> PositionsFrom(t, i)[j] != PositionsFrom(t, i)[k]
    decreases t, 0, |t.children| - i
  {
    if i < |t.children| {
      var ps := Positions(t.children[i]);
      var head, tail := Prepend(i, ps), PositionsFrom(t, i + 1);
      var all := PositionsFrom(t, i);
      assert all == head + tail;
      PositionsDistinct(t.children[i]);
      PositionsFromDistinct(t, i + 1);
      PositionsFromHeads(t, i + 1);
      forall j, k | 0 <= j < k < |all|
        ensures all[j] != all[k]
      {
        if k < |head| {
          assert all[j] == [i] + ps[j] && all[k] == [i] + ps[k];
          assert all[j][1..] == ps[j] && all[k][1..] == ps[k];
        } else if j < |head| {
          assert all[j][0] == i;
          assert all[k] == tail[k - |head|];
        } else {
          assert all[j] == tail[j - |head|] && all[k] == tail[k - |head|];
        }
      }
    }
  }

  /** The node under child `i` named by `q` has its path among the positions from child `k` on. */
  lemma {:induction false} PositionsFromContains<L>(t: Tree<L>, k: nat, i: nat, q: seq<nat>)
    requires k <= i < |t.children|
    requires q in Positions(t.children[i])
    ensures [i] + q in PositionsFrom(t, k)
    decreases i - k
  {
    if k < i {
      PositionsFromContains(t, k + 1, i, q);
    } else {
      var ps := Positions(t.children[i]);
      var j :| 0 <= j < |ps| && ps[j] == q;
      assert Prepend(i, ps)[j] == [i] + q;
    }
  }

  /** Every node of `t` has its path among the positions of the pre-order. */
  lemma {:induction false} PositionsComplete<L>(t: Tree<L>, p: seq<nat>)
    requires ValidPath(t, p)
    ensures p in Positions(t)
    decreases |p|
  {
    if p == [] {
      assert Positions(t)[0] == p;
    } else {
      var i, q := p[0], p[1..];
      PositionsComplete(t.children[i], q);
      PositionsFromContains(t, 0, i, q);
      assert p == [i] + q;
    }
  }

  /**
   * The walk visits each node of the tree exactly once: walk step `j` is the
   * node at path `Positions(t)[j]`, no path occurs twice, and every path of
   * the tree occurs.
   */
  lemma EachNodeVisitedOnce<L>(t: Tree<L>)
    ensures |Positions(t)| == |Visit(t)| == Size(t)
    ensures forall j :: 0 <= j < |Visit(t)| ==>
              ValidPath(t, Positions(t)[j]) && At(t, Positions(t)[j]) == Visit(t)[j]
    ensures forall j, k :: 0 <= j < k < |Positions(t)| ==> Positions(t)[j] != Positions(t)[k]
    ensures forall p :: ValidPath(t, p) ==> p in Positions(t)
  {
    PositionsMatchVisit(t);
    PositionsDistinct(t);
    forall p | ValidPath(t, p)
      ensures p in Positions(t)
    {
      PositionsComplete(t, p);
    }
  }
}
