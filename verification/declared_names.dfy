/**
 * The four declaration forms that the method-naming rules inspect, with the identifier each of them
 * names: a class method, a function declaration, a variable initialised with a function, and an
 * object property whose value is a function.
 */
module DeclaredNames {
  import opened Wrappers
  import opened Estree

  /**
   * The name a naming rule checks on `n`, or `None` when `n` is not one of the four forms or its
   * name is not a plain identifier.
   */
  function CheckedName(n: Node): (r: Option<string>)
    ensures r.Some? ==> n.MethodDef? || n.FunctionDecl? || n.VarDeclarator? || n.Property?
    ensures r.Some? ==> Identifier(r.value) in Children(n)
    ensures (n.VarDeclarator? || n.Property?) && r.Some? ==> IsFunctionValue(Children(n)[|Children(n)| - 1])
    ensures n.MethodDef? ==> (r.Some? <==> n.key.Identifier?) && (r.Some? ==> r.value == n.key.name)
    ensures n.FunctionDecl? ==>
      && (r.Some? <==> n.id.Some? && n.id.value.Identifier?)
      && (r.Some? ==> r.value == n.id.value.name)
    ensures n.VarDeclarator? ==>
      && (r.Some? <==> n.id.Some? && n.id.value.Identifier? && n.init.Some? && IsFunctionValue(n.init.value))
      && (r.Some? ==> r.value == n.id.value.name)
    ensures n.Property? ==>
      && (r.Some? <==> n.key.Identifier? && IsFunctionValue(n.value))
      && (r.Some? ==> r.value == n.key.name)
  {
    match n
    case MethodDef(key, _) => NameOf(key)
    case FunctionDecl(id, _, _) => if id.Some? then NameOf(id.value) else None
    case VarDeclarator(id, init) =>
      if id.Some? && init.Some? && IsFunctionValue(init.value) then NameOf(id.value) else None
    case Property(key, value) => if IsFunctionValue(value) then NameOf(key) else None
    case _ => None
  }
}
