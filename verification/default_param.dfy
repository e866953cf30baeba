/**
 * The rule against default parameter values: every parameter written `name = value` in a function,
 * arrow function or class method is reported, with a display name for the parameter.
 */
module DefaultParam {
  import opened Wrappers
  import opened Estree
  import opened Linter
  import opened CheckedParams

  const Message := "noDefaultParam"

  /** The message's `{{name}}` for the left side of a default: the identifier, or a placeholder. */
  function DisplayName(left: Node): (r: string)
    ensures left.Identifier? ==> r == left.name
    ensures !left.Identifier? ==> r in {"{...}", "[...]", "unknown"}
    ensures r == "{...}" && !left.Identifier? <==> left.ObjectPattern?
    ensures r == "[...]" && !left.Identifier? <==> left.ArrayPattern?
  {
    match left
    case Identifier(name) => name
    case ObjectPattern(_) => "{...}"
    case ArrayPattern(_) => "[...]"
    case _ => "unknown"
  }

  /** The report for a parameter with a default value (only those are reported). */
  function DefaultReport(p: Node): Report
  {
    match p
    case AssignPattern(left, _) => Report(Message, p, map["name" := DisplayName(left)])
    case _ => Report(Message, p, map[])
  }

  predicate HasDefault(p: Node)
  {
    p.AssignPattern?
  }

  function CheckParam(p: Node): seq<Report>
  {
    if p.AssignPattern? then [DefaultReport(p)] else []
  }

  function Handler(n: Node): seq<Report>
  {
    CheckParams(n, CheckParam)
  }

  function Lint(root: Node): seq<Report>
  {
    Collect(root, Handler)
  }

  /** The reports of one parameter list: one per defaulted parameter, in order, and no others. */
  lemma {:induction false} ParamListReports(ps: seq<Node>)
    ensures FlatMap(ps, CheckParam) == MapReports(Filter(ps, HasDefault), DefaultReport)
  {
    FlatMapSingles(ps, CheckParam, HasDefault, DefaultReport);
  }

  /** A report of the handler on `n` is about a defaulted parameter in `n`'s checked list. */
  lemma HandlerReportIsDefault(n: Node, r: Report)
    requires r in Handler(n)
    ensures r.node.AssignPattern? && r == DefaultReport(r.node)
    ensures ParamsChecked(n).Some? && r.node in ParamsChecked(n).value
  {
    var ps := ParamsChecked(n).value;
    FlatMapMember(ps, CheckParam, r);
    var j :| 0 <= j < |ps| && r in CheckParam(ps[j]);
    assert r.node == ps[j] && ps[j] in ps;
  }

  /**
   * Every report is about a defaulted parameter sitting directly in the parameter list of a function
   * or method of the file; defaults nested inside destructuring patterns are never reported.
   */
  lemma {:induction false} ReportsAreDirectDefaults(root: Node, r: Report)
    requires r in Lint(root)
    ensures r.node.AssignPattern? && r == DefaultReport(r.node)
    ensures exists n :: n in PreOrder(root) && ParamsChecked(n).Some? && r.node in ParamsChecked(n).value
  {
    FlatMapMember(PreOrder(root), Handler, r);
    var i :| 0 <= i < |PreOrder(root)| && r in Handler(PreOrder(root)[i]);
    var n := PreOrder(root)[i];
    HandlerReportIsDefault(n, r);
    assert n in PreOrder(root);
  }

  /** Nodes other than functions and methods never report, whatever their parameters-like children. */
  lemma OnlyFunctionsReport(n: Node)
    requires !n.FunctionDecl? && !n.FunctionExpr? && !n.ArrowFn? && !n.MethodDef?
    ensures Handler(n) == []
  {
  }

  /** Identifiers and literals have no parameters to check. */
  lemma LeafQuiet(n: Node)
    requires n.Identifier? || n.StringLiteral?
    ensures Collect(n, Handler) == []
  {
    CollectLeaf(n, Handler);
  }

  /** The subtrees below a method's function value `function (u, t = v) {}` report nothing of their own. */
  lemma ScrapeBodyQuiet(p: Node, u: string, t: string, v: string)
    requires p == AssignPattern(Identifier(t), StringLiteral(v))
    ensures var fe := FunctionExpr(None, [Identifier(u), p], []);
      FlatMap(PreOrderChildren(fe, Children(fe), 0), Handler) == []
  {
    var fe := FunctionExpr(None, [Identifier(u), p], []);
    LeafQuiet(Identifier(t));
    LeafQuiet(StringLiteral(v));
    QuietTwoChildren(p, Identifier(t), StringLiteral(v), Handler);
    LeafQuiet(Identifier(u));
    CollectTwoChildren(fe, Identifier(u), p, Handler);
  }

  /**
   * `class { k(u, t = v) {} }`, e.g. `scrape(url, timeout = 5000)`: the defaulted parameter is
   * reported twice, at the method and at its function value.
   */
  lemma MethodDefaultReportedTwice(p: Node, k: string, u: string, t: string, v: string)
    requires p == AssignPattern(Identifier(t), StringLiteral(v))
    ensures Lint(MethodDef(Identifier(k), FunctionExpr(None, [Identifier(u), p], [])))
      == [DefaultReport(p), DefaultReport(p)]
  {
    var ps := [Identifier(u), p];
    MethodParamsCheckedTwice(Identifier(k), None, ps, [], CheckParam, Handler);
    LeafQuiet(Identifier(k));
    ScrapeBodyQuiet(p, u, t, v);
    assert ps[1..] == [p];
    assert FlatMap([p], CheckParam) == [DefaultReport(p)] + FlatMap([], CheckParam);
  }

  /** A parameter list `(u, t = v)` reports the default once, naming `t`. */
  lemma TwoParamsOneDefault(p: Node, u: string, t: string, v: string)
    requires p == AssignPattern(Identifier(t), StringLiteral(v))
    ensures FlatMap([Identifier(u), p], CheckParam) == [Report(Message, p, map["name" := t])]
  {
    assert [Identifier(u), p][1..] == [p];
    assert FlatMap([p], CheckParam) == [DefaultReport(p)] + FlatMap([], CheckParam);
  }

  /** An arrow function `(u, t = v) => {}`, e.g. `(url, timeout = 5000) => {}`, is reported once, naming `t`. */
  lemma ArrowDefaultExample(p: Node, u: string, t: string, v: string)
    requires p == AssignPattern(Identifier(t), StringLiteral(v))
    ensures Lint(ArrowFn([Identifier(u), p], [])) == [Report(Message, p, map["name" := t])]
  {
    var fn := ArrowFn([Identifier(u), p], []);
    TwoParamsOneDefault(p, u, t, v);
    LeafQuiet(Identifier(t));
    LeafQuiet(StringLiteral(v));
    QuietTwoChildren(p, Identifier(t), StringLiteral(v), Handler);
    LeafQuiet(Identifier(u));
    CollectTwoChildren(fn, Identifier(u), p, Handler);
  }

  /** `{ a } = d` as a parameter: nothing below it is a function. */
  lemma DestructuredParamQuiet(p: Node, a: string, d: string)
    requires p == AssignPattern(ObjectPattern([Property(Identifier(a), Identifier(a))]), Identifier(d))
    ensures Collect(p, Handler) == []
  {
    var prop := Property(Identifier(a), Identifier(a));
    LeafQuiet(Identifier(a));
    QuietTwoChildren(prop, Identifier(a), Identifier(a), Handler);
    QuietOneChild(ObjectPattern([prop]), prop, Handler);
    LeafQuiet(Identifier(d));
    QuietTwoChildren(p, ObjectPattern([prop]), Identifier(d), Handler);
  }

  /**
   * A destructured parameter with a default, `({ a } = d) => {}` such as
   * `({ retries } = defaults) => {}`, is reported as `{...}`.
   */
  lemma DestructuredDefaultExample(p: Node, a: string, d: string)
    requires p == AssignPattern(ObjectPattern([Property(Identifier(a), Identifier(a))]), Identifier(d))
    ensures Lint(ArrowFn([p], [])) == [Report(Message, p, map["name" := "{...}"])]
  {
    DestructuredParamQuiet(p, a, d);
    CollectOneChild(ArrowFn([p], []), p, Handler);
    assert FlatMap([p], CheckParam) == [DefaultReport(p)] + FlatMap([], CheckParam);
  }

  /** `{ a = v }` as a parameter: the inner default belongs to no function's parameter list. */
  lemma InnerDefaultQuiet(obj: Node, a: string, v: string)
    requires obj == ObjectPattern([Property(Identifier(a), AssignPattern(Identifier(a), StringLiteral(v)))])
    ensures Collect(obj, Handler) == []
  {
    var inner := AssignPattern(Identifier(a), StringLiteral(v));
    var prop := Property(Identifier(a), inner);
    LeafQuiet(Identifier(a));
    LeafQuiet(StringLiteral(v));
    QuietTwoChildren(inner, Identifier(a), StringLiteral(v), Handler);
    QuietTwoChildren(prop, Identifier(a), inner, Handler);
    QuietOneChild(obj, prop, Handler);
  }

  /**
   * A default inside a destructuring pattern, `({ a = v }) => {}` such as `({ retries = 3 }) => {}`,
   * is not a parameter default.
   */
  lemma InnerDefaultExample(obj: Node, a: string, v: string)
    requires obj == ObjectPattern([Property(Identifier(a), AssignPattern(Identifier(a), StringLiteral(v)))])
    ensures Lint(ArrowFn([obj], [])) == []
  {
    InnerDefaultQuiet(obj, a, v);
    CollectOneChild(ArrowFn([obj], []), obj, Handler);
    assert FlatMap([obj], CheckParam) == CheckParam(obj) + FlatMap([], CheckParam);
  }
}
