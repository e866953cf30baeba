/**
 * The rule against vague parameter names: a plain identifier parameter called `data`, `input`,
 * `params`, `args`, `options`, `opts` or `config`, in any letter case, is reported with the name as
 * written.  Destructured, defaulted and rest parameters are not checked.
 */
module DataInputParamsArg {
  import opened Wrappers
  import opened Strings
  import opened Estree
  import opened Linter
  import opened CheckedParams

  const Message := "noDataInputParamsArg"

  /** The forbidden names, in lower case. */
  const ForbiddenNames: seq<string> := ["data", "input", "params", "args", "options", "opts", "config"]

  /** A plain identifier parameter whose lower-cased name is forbidden. */
  predicate IsForbiddenParam(p: Node)
  {
    p.Identifier? && ToLower(p.name) in ForbiddenNames
  }

  /** The report for a forbidden parameter: the message shows the name in its original case. */
  function ForbiddenReport(p: Node): Report
  {
    Report(Message, p, map["name" := NameOrEmpty(p)])
  }

  function CheckParam(p: Node): seq<Report>
  {
    if p.Identifier? && ToLower(p.name) in ForbiddenNames then [Report(Message, p, map["name" := p.name])] else []
  }

  function Handler(n: Node): seq<Report>
  {
    CheckParams(n, CheckParam)
  }

  function Lint(root: Node): seq<Report>
  {
    Collect(root, Handler)
  }

  /** Case folding is all the check does to a name: names that fold alike are judged alike. */
  lemma CaseInsensitive(a: string, b: string)
    requires ToLower(a) == ToLower(b)
    ensures IsForbiddenParam(Identifier(a)) <==> IsForbiddenParam(Identifier(b))
  {
  }

  /** The reports of one parameter list: one per forbidden identifier, in order, and no others. */
  lemma {:induction false} ParamListReports(ps: seq<Node>)
    ensures FlatMap(ps, CheckParam) == MapReports(Filter(ps, IsForbiddenParam), ForbiddenReport)
  {
    FlatMapSingles(ps, CheckParam, IsForbiddenParam, ForbiddenReport);
  }

  /**
   * Every report is about an identifier parameter sitting directly in the parameter list of a
   * function or method, and shows that identifier's own spelling.
   */
  lemma {:induction false} ReportsAreForbiddenParams(root: Node, r: Report)
    requires r in Lint(root)
    ensures IsForbiddenParam(r.node) && r.data == map["name" := r.node.name]
    ensures exists n :: n in PreOrder(root) && ParamsChecked(n).Some? && r.node in ParamsChecked(n).value
  {
    FlatMapMember(PreOrder(root), Handler, r);
    var i :| 0 <= i < |PreOrder(root)| && r in Handler(PreOrder(root)[i]);
    var n := PreOrder(root)[i];
    var ps := ParamsChecked(n).value;
    FlatMapMember(ps, CheckParam, r);
    var j :| 0 <= j < |ps| && r in CheckParam(ps[j]);
    assert IsForbiddenParam(ps[j]) && r == ForbiddenReport(ps[j]);
    assert r.node == ps[j] && ps[j] in ps;
    assert n in PreOrder(root);
  }

  lemma NameExamples()
    ensures IsForbiddenParam(Identifier("data"))
    ensures IsForbiddenParam(Identifier("Data"))
    ensures IsForbiddenParam(Identifier("OPTIONS"))
    ensures !IsForbiddenParam(Identifier("userData"))
    ensures !IsForbiddenParam(Identifier("userId"))
    ensures !IsForbiddenParam(AssignPattern(Identifier("data"), ObjectPattern([])))
    ensures !IsForbiddenParam(ObjectPattern([Property(Identifier("data"), Identifier("data"))]))
  {
    assert ToLower("data") == "data";
    assert ToLower("Data") == "data";
    assert ToLower("OPTIONS") == "options";
    assert ToLower("userData") == "userdata";
    assert ToLower("userId") == "userid";
  }

  /** `function createUser(Data) {}` is reported, and the message shows `Data` as written. */
  lemma FunctionExample()
    ensures var p := Identifier("Data");
      CheckParams(FunctionDecl(None, [Identifier("userId"), p], []), CheckParam) == [Report(Message, p, map["name" := "Data"])]
  {
    assert ToLower("Data") == "data";
    assert ToLower("userId") == "userid";
  }

  lemma CreateBodyQuiet(p: Node)
    requires p == Identifier("data")
    ensures var fe := FunctionExpr(None, [p], []);
      FlatMap(PreOrderChildren(fe, Children(fe), 0), Handler) == []
  {
    var fe := FunctionExpr(None, [p], []);
    CollectLeaf(p, Handler);
    CollectOneChild(fe, p, Handler);
  }

  lemma DataParamReport(p: Node)
    requires p == Identifier("data")
    ensures FlatMap([p], CheckParam) == [ForbiddenReport(p)]
  {
    assert ToLower("data") == "data";
    assert FlatMap([p], CheckParam) == CheckParam(p) + FlatMap([], CheckParam);
  }

  /** `class { create(data) {} }`: the parameter is reported at the method and again at its function value. */
  lemma MethodParamReportedTwice(p: Node)
    requires p == Identifier("data")
    ensures var r := Report(Message, p, map["name" := "data"]);
      Lint(MethodDef(Identifier("create"), FunctionExpr(None, [p], []))) == [r, r]
  {
    MethodParamsCheckedTwice(Identifier("create"), None, [p], [], CheckParam, Handler);
    CollectLeaf(Identifier("create"), Handler);
    CreateBodyQuiet(p);
    DataParamReport(p);
  }
}
