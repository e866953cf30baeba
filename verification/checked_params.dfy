/**
 * The parameter lists the two parameter rules check: those of every function declaration, function
 * expression and arrow function, and again those of a class method's function value.  Because a
 * method's value is itself a function expression, the linter visits its parameters twice.
 */
module CheckedParams {
  import opened Wrappers
  import opened Estree
  import opened Linter

  /** The parameters checked when the walk enters `n`, if any. */
  function ParamsChecked(n: Node): (r: Option<seq<Node>>)
    ensures n.FunctionDecl? || n.FunctionExpr? || n.ArrowFn? ==> r == Some(n.params)
    ensures n.MethodDef? ==> r == ParamsOf(n.value)
    ensures n.MethodDef? && IsFunctionValue(n.value) ==> r == Some(n.value.params)
    ensures !n.MethodDef? && !n.FunctionDecl? && !n.FunctionExpr? && !n.ArrowFn? ==> r.None?
  {
    match n
    case FunctionDecl(_, ps, _) => Some(ps)
    case FunctionExpr(_, ps, _) => Some(ps)
    case ArrowFn(ps, _) => Some(ps)
    case MethodDef(_, value) => ParamsOf(value)
    case _ => None
  }

  /** A rule's handler: `check` applied to every checked parameter, in order. */
  function CheckParams(n: Node, check: Node -> seq<Report>): seq<Report>
  {
    match ParamsChecked(n)
    case Some(ps) => FlatMap(ps, check)
    case None => []
  }

  /** What a handler collects over a method definition: the method, its key, its value, the value's children. */
  lemma {:induction false} CollectMethod(key: Node, fe: Node, handler: Node -> seq<Report>)
    ensures Collect(MethodDef(key, fe), handler) ==
      handler(MethodDef(key, fe)) + Collect(key, handler) + handler(fe)
        + FlatMap(PreOrderChildren(fe, Children(fe), 0), handler)
  {
    var md := MethodDef(key, fe);
    var a := PreOrder(key);
    var c := PreOrderChildren(fe, Children(fe), 0);
    PreOrderTwoChildren(md, key, fe);
    assert PreOrder(fe) == [fe] + c;
    FlatMapAppend([md] + a, [fe] + c, handler);
    FlatMapAppend([md], a, handler);
    FlatMapAppend([fe], c, handler);
    assert FlatMap([md], handler) == handler(md) + FlatMap([], handler);
    assert FlatMap([fe], handler) == handler(fe) + FlatMap([], handler);
    var x, y := FlatMap(a, handler), FlatMap(c, handler);
    assert (handler(md) + x) + (handler(fe) + y) == handler(md) + x + handler(fe) + y;
  }

  /**
   * A class method `key(params) {...}` has its parameters checked once at the method definition and
   * once more at the function expression that is its value.
   */
  lemma MethodParamsCheckedTwice(key: Node, fnId: Option<Node>, ps: seq<Node>, body: seq<Node>,
                                 check: Node -> seq<Report>, handler: Node -> seq<Report>)
    requires forall n :: handler(n) == CheckParams(n, check)
    ensures var fe := FunctionExpr(fnId, ps, body);
      Collect(MethodDef(key, fe), handler) ==
        FlatMap(ps, check) + Collect(key, handler) + FlatMap(ps, check)
          + FlatMap(PreOrderChildren(fe, Children(fe), 0), handler)
  {
    var fe := FunctionExpr(fnId, ps, body);
    CollectMethod(key, fe, handler);
    assert handler(MethodDef(key, fe)) == FlatMap(ps, check);
    assert handler(fe) == FlatMap(ps, check);
  }
}
