/**
 * A simplified ESTree syntax tree: the node kinds the rules inspect, each with the fields the rules
 * read, and `OtherNode` for every other kind.  Parent pointers are not stored; the traversal passes
 * each node's ancestors as a sequence (root first, parent last).
 */
module Estree {
  import opened Wrappers

  datatype LoopKind = ForLoop | ForInLoop | ForOfLoop | WhileLoop | DoWhileLoop

  datatype Node =
    | Identifier(name: string)
    | StringLiteral(raw: string)
    | ThisExpr
    | MemberExpr(obj: Node, property: Node)
    | CallExpr(callee: Node, arguments: seq<Node>)
    | AwaitExpr(argument: Node)
    | ArrowFn(params: seq<Node>, body: seq<Node>)
    | FunctionExpr(id: Option<Node>, params: seq<Node>, body: seq<Node>)
    | FunctionDecl(id: Option<Node>, params: seq<Node>, body: seq<Node>)
      /** `for`, `for-in`, `for-of`, `while`, `do-while`; `parts` are its head and body. */
    | LoopStmt(kind: LoopKind, parts: seq<Node>)
      /** `parts` are the test, the consequent and the alternate. */
    | IfStmt(parts: seq<Node>)
      /** `parts` are the block, the handler and the finalizer. */
    | TryStmt(parts: seq<Node>)
      /** `import ... from source` */
    | ImportDecl(source: string)
    | MethodDef(key: Node, value: Node)
    | Property(key: Node, value: Node)
    | VarDeclarator(id: Option<Node>, init: Option<Node>)
    | TypeAlias(id: Option<Node>)
    | InterfaceDecl(id: Option<Node>)
      /** A parameter with a default value, `left = right`. */
    | AssignPattern(left: Node, right: Node)
    | ObjectPattern(properties: seq<Node>)
    | ArrayPattern(elements: seq<Node>)
    | RestElement(argument: Node)
    | OtherNode(children: seq<Node>)

  function OptionList(o: Option<Node>): seq<Node>
  {
    match o
    case Some(n) => [n]
    case None => []
  }

  /** The child nodes in the order the linter visits them. */
  function Children(n: Node): (r: seq<Node>)
    ensures forall c :: c in r ==> c < n
  {
    match n
    case Identifier(_) => []
    case StringLiteral(_) => []
    case ThisExpr => []
    case MemberExpr(o, p) => [o, p]
    case CallExpr(c, args) => [c] + args
    case AwaitExpr(a) => [a]
    case ArrowFn(ps, b) => ps + b
    case FunctionExpr(id, ps, b) => OptionList(id) + ps + b
    case FunctionDecl(id, ps, b) => OptionList(id) + ps + b
    case LoopStmt(_, ps) => ps
    case IfStmt(ps) => ps
    case TryStmt(ps) => ps
    case ImportDecl(_) => []
    case MethodDef(k, v) => [k, v]
    case Property(k, v) => [k, v]
    case VarDeclarator(id, init) => OptionList(id) + OptionList(init)
    case TypeAlias(id) => OptionList(id)
    case InterfaceDecl(id) => OptionList(id)
    case AssignPattern(l, r) => [l, r]
    case ObjectPattern(ps) => ps
    case ArrayPattern(es) => es
    case RestElement(a) => [a]
    case OtherNode(cs) => cs
  }

  /** `n.name`, which only identifiers have. */
  function NameOf(n: Node): Option<string>
  {
    if n.Identifier? then Some(n.name) else None
  }

  /** `n?.name || ""`: a missing name and an empty one read alike. */
  function NameOrEmpty(n: Node): string
  {
    NameOf(n).GetOr("")
  }

  /** `n.type === "ArrowFunctionExpression" || n.type === "FunctionExpression"` */
  predicate IsFunctionValue(n: Node)
  {
    n.ArrowFn? || n.FunctionExpr?
  }

  /** `n.params`, which only function nodes have. */
  function ParamsOf(n: Node): Option<seq<Node>>
  {
    match n
    case ArrowFn(ps, _) => Some(ps)
    case FunctionExpr(_, ps, _) => Some(ps)
    case FunctionDecl(_, ps, _) => Some(ps)
    case _ => None
  }
}
