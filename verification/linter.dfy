/**
 * The host linter's side of a rule: the findings a rule reports and the depth-first walk that calls
 * the rule's handlers.  Enter handlers run in pre-order and exit handlers in post-order, children
 * in their fixed order, and every handler is given the node's ancestors (root first, parent last).
 */
module Linter {
  import opened Estree

  /** A finding: the message id, the node it is attached to and the message's `data` map. */
  datatype Report = Report(messageId: string, node: Node, data: map<string, string>)

  /** The nodes of a tree in the order their enter handlers run. */
  function PreOrder(n: Node): (r: seq<Node>)
    ensures |r| >= 1 && r[0] == n
    decreases n, 1
  {
    [n] + PreOrderChildren(n, Children(n), 0)
  }

  function PreOrderChildren(parent: Node, ns: seq<Node>, i: nat): seq<Node>
    requires i <= |ns|
    requires forall c :: c in ns ==> c < parent
    decreases parent, 0, |ns| - i
  {
    if i == |ns| then []
    else
      assert ns[i] in ns;
      PreOrder(ns[i]) + PreOrderChildren(parent, ns, i + 1)
  }

  /** The visiting order of a node with two children: the node, then each child's subtree. */
  lemma {:induction false} PreOrderTwoChildren(n: Node, c1: Node, c2: Node)
    requires Children(n) == [c1, c2]
    ensures PreOrder(n) == [n] + PreOrder(c1) + PreOrder(c2)
  {
    assert PreOrderChildren(n, [c1, c2], 2) == [];
    assert PreOrderChildren(n, [c1, c2], 1) == PreOrder(c2) + [];
    assert PreOrderChildren(n, [c1, c2], 0) == PreOrder(c1) + (PreOrder(c2) + []);
  }

  /** The reports of `f` on each node of `ns`, in order. */
  function FlatMap(ns: seq<Node>, f: Node -> seq<Report>): seq<Report>
  {
    if ns == [] then [] else f(ns[0]) + FlatMap(ns[1..], f)
  }

  /** What a rule without state reports on a file: its enter handler `f` applied to every node. */
  function Collect(root: Node, f: Node -> seq<Report>): seq<Report>
  {
    FlatMap(PreOrder(root), f)
  }

  lemma {:induction false} FlatMapAppend(a: seq<Node>, b: seq<Node>, f: Node -> seq<Report>)
    ensures FlatMap(a + b, f) == FlatMap(a, f) + FlatMap(b, f)
  {
    if a == [] {
      assert a + b == b;
    } else {
      assert (a + b)[1..] == a[1..] + b;
      FlatMapAppend(a[1..], b, f);
    }
  }

  /** One level of `Collect` for a node without children. */
  lemma {:induction false} CollectLeaf(n: Node, f: Node -> seq<Report>)
    requires Children(n) == []
    ensures Collect(n, f) == f(n)
  {
    assert PreOrder(n) == [n];
    assert FlatMap([n], f) == f(n) + FlatMap([], f);
  }

  /** One level of `Collect` for a node with one child. */
  lemma {:induction false} CollectOneChild(n: Node, c: Node, f: Node -> seq<Report>)
    requires Children(n) == [c]
    ensures Collect(n, f) == f(n) + Collect(c, f)
  {
    assert PreOrderChildren(n, [c], 1) == [];
    assert PreOrder(n) == [n] + PreOrder(c);
    FlatMapAppend([n], PreOrder(c), f);
    assert FlatMap([n], f) == f(n) + FlatMap([], f);
  }

  /** A node that reports nothing, over one quiet child, is quiet. */
  lemma QuietOneChild(n: Node, c: Node, f: Node -> seq<Report>)
    requires Children(n) == [c] && f(n) == [] && Collect(c, f) == []
    ensures Collect(n, f) == []
  {
    CollectOneChild(n, c, f);
  }

  /** One level of `Collect` for a node with two children. */
  lemma {:induction false} CollectTwoChildren(n: Node, c1: Node, c2: Node, f: Node -> seq<Report>)
    requires Children(n) == [c1, c2]
    ensures Collect(n, f) == f(n) + Collect(c1, f) + Collect(c2, f)
  {
    PreOrderTwoChildren(n, c1, c2);
    FlatMapAppend([n] + PreOrder(c1), PreOrder(c2), f);
    FlatMapAppend([n], PreOrder(c1), f);
    assert FlatMap([n], f) == f(n) + FlatMap([], f);
  }

  /** A node that reports nothing, over two quiet children, is quiet. */
  lemma QuietTwoChildren(n: Node, c1: Node, c2: Node, f: Node -> seq<Report>)
    requires Children(n) == [c1, c2] && f(n) == [] && Collect(c1, f) == [] && Collect(c2, f) == []
    ensures Collect(n, f) == []
  {
    CollectTwoChildren(n, c1, c2, f);
  }

  /** A report is collected exactly when the handler gives it on some node. */
  lemma {:induction false} FlatMapMember(ns: seq<Node>, f: Node -> seq<Report>, r: Report)
    ensures r in FlatMap(ns, f) <==> exists i :: 0 <= i < |ns| && r in f(ns[i])
  {
    if ns != [] {
      FlatMapMember(ns[1..], f, r);
      if r in FlatMap(ns[1..], f) {
        var i :| 0 <= i < |ns[1..]| && r in f(ns[1..][i]);
        assert r in f(ns[i + 1]);
      }
      if exists i :: 0 <= i < |ns| && r in f(ns[i]) {
        var i :| 0 <= i < |ns| && r in f(ns[i]);
        if i > 0 {
          assert r in f(ns[1..][i - 1]);
        }
      }
    }
  }

  /** The nodes of `ns` that satisfy `p`, in order. */
  function Filter(ns: seq<Node>, p: Node -> bool): (r: seq<Node>)
    ensures forall x :: x in r <==> x in ns && p(x)
    ensures forall k :: 0 <= k < |r| ==> p(r[k])
  {
    if ns == [] then []
    else
      assert ns == [ns[0]] + ns[1..];
      (if p(ns[0]) then [ns[0]] else []) + Filter(ns[1..], p)
  }

  /** `g` applied to each node of `ns`, in order. */
  function MapReports(ns: seq<Node>, g: Node -> Report): (r: seq<Report>)
    ensures |r| == |ns|
    ensures forall k :: 0 <= k < |ns| ==> r[k] == g(ns[k])
  {
    if ns == [] then [] else [g(ns[0])] + MapReports(ns[1..], g)
  }

  /**
   * A handler that reports `g(n)` on the nodes satisfying `p` and nothing elsewhere reports once per
   * such node, in visiting order.
   */
  lemma {:induction false} FlatMapSingles(ns: seq<Node>, f: Node -> seq<Report>, p: Node -> bool, g: Node -> Report)
    requires forall n :: f(n) == if p(n) then [g(n)] else []
    ensures FlatMap(ns, f) == MapReports(Filter(ns, p), g)
  {
    if ns != [] {
      FlatMapSingles(ns[1..], f, p, g);
      var rest := Filter(ns[1..], p);
      if p(ns[0]) {
        assert ([ns[0]] + rest)[1..] == rest;
      }
    }
  }

  /** Some node of the tree rooted at `n` satisfies `p`, given its ancestors. */
  predicate SomeNode(n: Node, anc: seq<Node>, p: (Node, seq<Node>) -> bool)
    decreases n, 1
  {
    p(n, anc) || SomeChild(n, Children(n), 0, anc + [n], p)
  }

  predicate SomeChild(parent: Node, ns: seq<Node>, i: nat, anc: seq<Node>, p: (Node, seq<Node>) -> bool)
    requires i <= |ns|
    requires forall c :: c in ns ==> c < parent
    decreases parent, 0, |ns| - i
  {
    i < |ns| && (assert ns[i] in ns; SomeNode(ns[i], anc, p) || SomeChild(parent, ns, i + 1, anc, p))
  }

  /** What a handler returns: the updated rule state and the reports it made. */
  datatype Step<S> = Step(state: S, reports: seq<Report>)

  /**
   * One depth-first walk of the tree rooted at `n` for a rule with state `S`: `enter` on the way
   * down, then the children left to right, then `exit` on the way up, with the same ancestors.
   */
  function Walk<S>(n: Node, anc: seq<Node>, st: S,
                   enter: (Node, seq<Node>, S) -> Step<S>, exit: (Node, seq<Node>, S) -> S): Step<S>
    decreases n, 1
  {
    var entered := enter(n, anc, st);
    var inner := WalkChildren(n, Children(n), 0, anc + [n], entered.state, enter, exit);
    Step(exit(n, anc, inner.state), entered.reports + inner.reports)
  }

  function WalkChildren<S>(parent: Node, ns: seq<Node>, i: nat, anc: seq<Node>, st: S,
                           enter: (Node, seq<Node>, S) -> Step<S>, exit: (Node, seq<Node>, S) -> S): Step<S>
    requires i <= |ns|
    requires forall c :: c in ns ==> c < parent
    decreases parent, 0, |ns| - i
  {
    if i == |ns| then Step(st, [])
    else
      assert ns[i] in ns;
      var first := Walk(ns[i], anc, st, enter, exit);
      var rest := WalkChildren(parent, ns, i + 1, anc, first.state, enter, exit);
      Step(rest.state, first.reports + rest.reports)
  }

  /** One level of `Walk` for a node without children. */
  lemma WalkNoChildren<S>(n: Node, anc: seq<Node>, st: S,
                          enter: (Node, seq<Node>, S) -> Step<S>, exit: (Node, seq<Node>, S) -> S)
    requires Children(n) == []
    ensures var e := enter(n, anc, st);
      Walk(n, anc, st, enter, exit) == Step(exit(n, anc, e.state), e.reports)
  {
    assert WalkChildren(n, [], 0, anc + [n], enter(n, anc, st).state, enter, exit).reports == [];
  }

  /** One level of `Walk` for a node with one child. */
  lemma WalkOneChild<S>(n: Node, c: Node, anc: seq<Node>, st: S,
                        enter: (Node, seq<Node>, S) -> Step<S>, exit: (Node, seq<Node>, S) -> S)
    requires Children(n) == [c]
    ensures var e := enter(n, anc, st);
      var w := Walk(c, anc + [n], e.state, enter, exit);
      Walk(n, anc, st, enter, exit) == Step(exit(n, anc, w.state), e.reports + w.reports)
  {
    var e := enter(n, anc, st);
    var w := Walk(c, anc + [n], e.state, enter, exit);
    assert WalkChildren(n, [c], 1, anc + [n], w.state, enter, exit) == Step(w.state, []);
    assert WalkChildren(n, [c], 0, anc + [n], e.state, enter, exit) == Step(w.state, w.reports + []);
  }

  /** One level of `Walk` for a node with two children. */
  lemma WalkTwoChildren<S>(n: Node, c1: Node, c2: Node, anc: seq<Node>, st: S,
                           enter: (Node, seq<Node>, S) -> Step<S>, exit: (Node, seq<Node>, S) -> S)
    requires Children(n) == [c1, c2]
    ensures var e := enter(n, anc, st);
      var w1 := Walk(c1, anc + [n], e.state, enter, exit);
      var w2 := Walk(c2, anc + [n], w1.state, enter, exit);
      Walk(n, anc, st, enter, exit) == Step(exit(n, anc, w2.state), e.reports + (w1.reports + w2.reports))
  {
    var e := enter(n, anc, st);
    var w1 := Walk(c1, anc + [n], e.state, enter, exit);
    var w2 := Walk(c2, anc + [n], w1.state, enter, exit);
    assert WalkChildren(n, [c1, c2], 2, anc + [n], w2.state, enter, exit) == Step(w2.state, []);
    assert WalkChildren(n, [c1, c2], 1, anc + [n], w1.state, enter, exit) == Step(w2.state, w2.reports + []);
    assert WalkChildren(n, [c1, c2], 0, anc + [n], e.state, enter, exit)
        == Step(w2.state, w1.reports + (w2.reports + []));
  }
}
