/**
 * The rule against assertions under a condition: while the walk is inside at least one `if`
 * statement (its test, consequent or alternate), every call that is an `expect` assertion is
 * reported, since a test whose assertions may be skipped can pass without checking anything.
 */
module ExpectInIf {
  import opened Estree
  import opened Linter

  const Message := "noExpectInIf"

  predicate IsExpectCallee(c: Node)
  {
    c.Identifier? && c.name == "expect"
  }

  /**
   * A call is an `expect` assertion when it is `expect(...)` itself or a method called on the result
   * of one, through any number of chained calls.  `expect(x).toBe(y)` is one;
   * `expect(x).resolves.toBe(y)` is not, because `.resolves` is a property access rather than a call.
   */
  predicate IsExpectCall(n: Node)
  {
    n.CallExpr? && (IsExpectCallee(n.callee) || (n.callee.MemberExpr? && IsExpectCall(n.callee.obj)))
  }

  /** The source's loop: climb the call chain through `callee.object` until `expect` or a non-call. */
  method IsExpectCallLoop(node: Node) returns (b: bool)
    ensures b == IsExpectCall(node)
  {
    if node.CallExpr? {
      if IsExpectCallee(node.callee) {
        return true;
      }
      if node.callee.MemberExpr? {
        var obj := node.callee.obj;
        while obj.CallExpr?
          invariant IsExpectCall(obj) == IsExpectCall(node)
          decreases obj
        {
          if IsExpectCallee(obj.callee) {
            return true;
          }
          if obj.callee.MemberExpr? {
            obj := obj.callee.obj;
          } else {
            break;
          }
        }
      }
    }
    return false;
  }

  /** A link of a call chain: the method name and the call's arguments. */
  datatype Link = Link(property: Node, args: seq<Node>)

  /** Reference definition: `base.m1(a1).m2(a2)...` for the links in order. */
  function Chain(base: Node, links: seq<Link>): Node
    decreases |links|
  {
    if links == [] then base
    else
      var last := links[|links| - 1];
      CallExpr(MemberExpr(Chain(base, links[..|links| - 1]), last.property), last.args)
  }

  function ExpectOf(args: seq<Node>): Node
  {
    CallExpr(Identifier("expect"), args)
  }

  lemma {:induction false} ChainIsExpectCall(args: seq<Node>, links: seq<Link>)
    ensures IsExpectCall(Chain(ExpectOf(args), links))
    decreases |links|
  {
    if links != [] {
      ChainIsExpectCall(args, links[..|links| - 1]);
    }
  }

  lemma {:induction false} ExpectCallIsChain(n: Node)
    requires IsExpectCall(n)
    ensures exists args, links :: n == Chain(ExpectOf(args), links)
    decreases n
  {
    if IsExpectCallee(n.callee) {
      assert n == Chain(ExpectOf(n.arguments), []);
    } else {
      ExpectCallIsChain(n.callee.obj);
      var args, links :| n.callee.obj == Chain(ExpectOf(args), links);
      var links' := links + [Link(n.callee.property, n.arguments)];
      assert links'[..|links'| - 1] == links;
      assert n == Chain(ExpectOf(args), links');
    }
  }

  /** The recognised calls are exactly the chains of method calls rooted at a direct `expect(...)` call. */
  lemma ExpectCallsAreChains(n: Node)
    ensures IsExpectCall(n) <==> exists args, links :: n == Chain(ExpectOf(args), links)
  {
    if IsExpectCall(n) {
      ExpectCallIsChain(n);
    }
    if exists args, links :: n == Chain(ExpectOf(args), links) {
      var args, links :| n == Chain(ExpectOf(args), links);
      ChainIsExpectCall(args, links);
    }
  }

  function ExpectReport(n: Node): Report
  {
    Report(Message, n, map[])
  }

  /** What the rule reports at a node once it is inside an `if`. */
  function ExpectReports(n: Node): seq<Report>
  {
    if IsExpectCall(n) then [ExpectReport(n)] else []
  }

  /** The `IfStatement` and `CallExpression` handlers; the state is the number of enclosing `if`s. */
  function Enter(n: Node, anc: seq<Node>, depth: int): Step<int>
  {
    if n.IfStmt? then Step(depth + 1, [])
    else if n.CallExpr? && depth > 0 && IsExpectCall(n) then Step(depth, [ExpectReport(n)])
    else Step(depth, [])
  }

  function Exit(n: Node, anc: seq<Node>, depth: int): int
  {
    if n.IfStmt? then depth - 1 else depth
  }

  function Lint(root: Node): seq<Report>
  {
    Walk(root, [], 0, Enter, Exit).reports
  }

  /** Entering and leaving a subtree leaves the `if` depth as it was. */
  lemma {:induction false} DepthRestored(n: Node, anc: seq<Node>, d: int)
    ensures Walk(n, anc, d, Enter, Exit).state == d
    decreases n, 1
  {
    var e := Enter(n, anc, d);
    DepthRestoredChildren(n, Children(n), 0, anc + [n], e.state);
  }

  lemma {:induction false} DepthRestoredChildren(parent: Node, ns: seq<Node>, i: nat, anc: seq<Node>, d: int)
    requires i <= |ns|
    requires forall c :: c in ns ==> c < parent
    ensures WalkChildren(parent, ns, i, anc, d, Enter, Exit).state == d
    decreases parent, 0, |ns| - i
  {
    if i < |ns| {
      assert ns[i] in ns;
      DepthRestored(ns[i], anc, d);
      DepthRestoredChildren(parent, ns, i + 1, anc, d);
    }
  }

  /** Inside an `if`, a subtree reports exactly its `expect` calls, in visiting order. */
  lemma {:induction false} InsideIfCollects(n: Node, anc: seq<Node>, d: int)
    requires d > 0
    ensures Walk(n, anc, d, Enter, Exit).reports == Collect(n, ExpectReports)
    decreases n, 1
  {
    var e := Enter(n, anc, d);
    assert e.reports == ExpectReports(n);
    InsideIfCollectsChildren(n, Children(n), 0, anc + [n], e.state);
    FlatMapAppend([n], PreOrderChildren(n, Children(n), 0), ExpectReports);
    assert FlatMap([n], ExpectReports) == ExpectReports(n) + FlatMap([], ExpectReports);
  }

  lemma {:induction false} InsideIfCollectsChildren(parent: Node, ns: seq<Node>, i: nat, anc: seq<Node>, d: int)
    requires i <= |ns|
    requires forall c :: c in ns ==> c < parent
    requires d > 0
    ensures WalkChildren(parent, ns, i, anc, d, Enter, Exit).reports == FlatMap(PreOrderChildren(parent, ns, i), ExpectReports)
    decreases parent, 0, |ns| - i
  {
    if i < |ns| {
      assert ns[i] in ns;
      InsideIfCollects(ns[i], anc, d);
      DepthRestored(ns[i], anc, d);
      InsideIfCollectsChildren(parent, ns, i + 1, anc, d);
      FlatMapAppend(PreOrder(ns[i]), PreOrderChildren(parent, ns, i + 1), ExpectReports);
    }
  }

  /**
   * Outside every `if`, an `if` statement reports every `expect` call in its test and branches, in
   * order, however deeply nested.
   */
  lemma IfStatementReportsItsExpects(parts: seq<Node>, anc: seq<Node>)
    ensures Walk(IfStmt(parts), anc, 0, Enter, Exit).reports
      == FlatMap(PreOrderChildren(IfStmt(parts), parts, 0), ExpectReports)
  {
    InsideIfCollectsChildren(IfStmt(parts), parts, 0, anc + [IfStmt(parts)], 1);
  }

  predicate IsIf(n: Node, anc: seq<Node>)
  {
    n.IfStmt?
  }

  /** Code under no `if` reports nothing, `expect` calls included. */
  lemma {:induction false} NoIfNoReports(n: Node, anc: seq<Node>)
    requires !SomeNode(n, anc, IsIf)
    ensures Walk(n, anc, 0, Enter, Exit).reports == []
    decreases n, 1
  {
    NoIfNoReportsChildren(n, Children(n), 0, anc + [n]);
  }

  lemma {:induction false} NoIfNoReportsChildren(parent: Node, ns: seq<Node>, i: nat, anc: seq<Node>)
    requires i <= |ns|
    requires forall c :: c in ns ==> c < parent
    requires !SomeChild(parent, ns, i, anc, IsIf)
    ensures WalkChildren(parent, ns, i, anc, 0, Enter, Exit).reports == []
    decreases parent, 0, |ns| - i
  {
    if i < |ns| {
      assert ns[i] in ns;
      NoIfNoReports(ns[i], anc);
      DepthRestored(ns[i], anc, 0);
      NoIfNoReportsChildren(parent, ns, i + 1, anc);
    }
  }

  /** `expect(a)` is reported once, as itself. */
  lemma DirectExpectReported(inner: Node, a: string)
    requires inner == ExpectOf([Identifier(a)])
    ensures Collect(inner, ExpectReports) == [ExpectReport(inner)]
  {
    CollectLeaf(Identifier("expect"), ExpectReports);
    CollectLeaf(Identifier(a), ExpectReports);
    CollectTwoChildren(inner, Identifier("expect"), Identifier(a), ExpectReports);
  }

  /** `expect(a).m(b)`, e.g. `expect(a).toBe(b)`, counts twice: the outer `.m` call and the inner `expect(a)` call. */
  lemma ChainedAssertionCountsTwice(inner: Node, outer: Node, a: string, m: string, b: string)
    requires inner == ExpectOf([Identifier(a)])
    requires outer == CallExpr(MemberExpr(inner, Identifier(m)), [Identifier(b)])
    ensures Collect(outer, ExpectReports) == [ExpectReport(outer), ExpectReport(inner)]
  {
    var callee := MemberExpr(inner, Identifier(m));
    DirectExpectReported(inner, a);
    CollectLeaf(Identifier(b), ExpectReports);
    CollectLeaf(Identifier(m), ExpectReports);
    assert !IsExpectCall(callee);
    CollectTwoChildren(callee, inner, Identifier(m), ExpectReports);
    assert IsExpectCall(outer);
    CollectTwoChildren(outer, callee, Identifier(b), ExpectReports);
  }

  /**
   * `expect(a).not.toBe(b)`: the chain passes through the property `.not`, so only the inner
   * `expect(a)` call is recognised; a method named `expect` on another object is not an assertion.
   */
  lemma RecognitionExamples()
    ensures var inner := ExpectOf([Identifier("a")]);
      && IsExpectCall(inner)
      && !IsExpectCall(CallExpr(MemberExpr(MemberExpr(inner, Identifier("not")), Identifier("toBe")), [Identifier("b")]))
      && !IsExpectCall(CallExpr(MemberExpr(Identifier("helper"), Identifier("expect")), [Identifier("a")]))
      && !IsExpectCall(CallExpr(Identifier("assert"), [Identifier("a")]))
  {
  }
}
