/**
 * The rule against condition-specific repository methods: a declaration named `findBy<Upper>...` or
 * `searchBy<Upper>...` is reported, because such lookups belong in one `find`/`search` method with an
 * optional `where` object.
 */
module FindBySearchByMethod {
  import opened Wrappers
  import opened Strings
  import opened Estree
  import opened Linter
  import opened DeclaredNames

  const Message := "noFindBySearchByMethod"

  /** `name` begins with `prefix` and the next character is an upper-case ASCII letter. */
  predicate PrefixThenUpper(name: string, prefix: string)
  {
    StartsWith(name, prefix) && |prefix| < |name| && IsUpperAscii(name[|prefix|])
  }

  /** `/^(findBy|searchBy)[A-Z]/`, after the empty-name guard. */
  predicate HasFindByOrSearchByPattern(name: string)
  {
    name != "" && (PrefixThenUpper(name, "findBy") || PrefixThenUpper(name, "searchBy"))
  }

  /** The declarations the rule reports. */
  predicate Flagged(n: Node)
  {
    CheckedName(n).Some? && HasFindByOrSearchByPattern(CheckedName(n).value)
  }

  function FlaggedReport(n: Node): Report
  {
    Report(Message, n, map[])
  }

  function Handler(n: Node): seq<Report>
  {
    match CheckedName(n)
    case Some(name) => if HasFindByOrSearchByPattern(name) then [FlaggedReport(n)] else []
    case None => []
  }

  function Lint(root: Node): seq<Report>
  {
    Collect(root, Handler)
  }

  /** The pattern read as a prefix test on slices: one of the two words, then a capital letter. */
  lemma PatternIsPrefixThenCapital(name: string)
    ensures HasFindByOrSearchByPattern(name) <==>
      exists p :: p in ["findBy", "searchBy"] && |p| < |name| && name[..|p|] == p && IsUpperAscii(name[|p|])
  {
    StartsWithIsPrefix(name, "findBy");
    StartsWithIsPrefix(name, "searchBy");
    if HasFindByOrSearchByPattern(name) {
      if PrefixThenUpper(name, "findBy") {
        assert "findBy" in ["findBy", "searchBy"];
      } else {
        assert "searchBy" in ["findBy", "searchBy"];
      }
    }
  }

  /** The rule reports each flagged declaration once, in visiting order, and nothing else. */
  lemma LintReportsFlaggedDeclarations(root: Node)
    ensures Lint(root) == MapReports(Filter(PreOrder(root), Flagged), FlaggedReport)
  {
    FlatMapSingles(PreOrder(root), Handler, Flagged, FlaggedReport);
  }

  lemma NameExamples()
    ensures HasFindByOrSearchByPattern("findById")
    ensures HasFindByOrSearchByPattern("searchByTitle")
    ensures !HasFindByOrSearchByPattern("findBy")
    ensures !HasFindByOrSearchByPattern("findByid")
    ensures !HasFindByOrSearchByPattern("FindById")
    ensures !HasFindByOrSearchByPattern("findAll")
    ensures !HasFindByOrSearchByPattern("userFindById")
  {
  }

  /** `const findById = () => {}` is reported; `const findById = 5` and a call to `findById` are not. */
  lemma DeclarationExamples()
    ensures Flagged(VarDeclarator(Some(Identifier("findById")), Some(ArrowFn([], []))))
    ensures !Flagged(VarDeclarator(Some(Identifier("findById")), Some(StringLiteral("5"))))
    ensures !Flagged(CallExpr(Identifier("findById"), []))
  {
    assert HasFindByOrSearchByPattern("findById");
  }

  /** `{ searchByTitle: function () {} }` is reported. */
  lemma PropertyDeclarationExample()
    ensures Flagged(Property(Identifier("searchByTitle"), FunctionExpr(None, [], [])))
  {
    assert HasFindByOrSearchByPattern("searchByTitle");
  }

  /** An empty method `x() {}` is visited as itself, its key and its function value. */
  lemma EmptyMethodCollect(md: Node, x: string)
    requires md == MethodDef(Identifier(x), FunctionExpr(None, [], []))
    ensures Collect(md, Handler) == Handler(md)
  {
    CollectLeaf(Identifier(x), Handler);
    CollectLeaf(md.value, Handler);
    CollectTwoChildren(md, Identifier(x), md.value, Handler);
  }

  /** A class body with two members: what each member's subtree reports, in order. */
  lemma TwoMemberClass(md: Node, md2: Node)
    ensures Lint(OtherNode([md, md2])) == Collect(md, Handler) + Collect(md2, Handler)
  {
    CollectTwoChildren(OtherNode([md, md2]), md, md2, Handler);
  }

  /** Two empty methods `x() {}` and `y() {}` with only `x` flagged: only the first is reported. */
  lemma FlaggedThenQuietClass(md: Node, md2: Node, x: string, y: string)
    requires md == MethodDef(Identifier(x), FunctionExpr(None, [], [])) && HasFindByOrSearchByPattern(x)
    requires md2 == MethodDef(Identifier(y), FunctionExpr(None, [], [])) && !HasFindByOrSearchByPattern(y)
    ensures Lint(OtherNode([md, md2])) == [FlaggedReport(md)]
  {
    TwoMemberClass(md, md2);
    EmptyMethodCollect(md, x);
    EmptyMethodCollect(md2, y);
    assert Handler(md) == [FlaggedReport(md)] && Handler(md2) == [];
  }

  lemma FindByIdAndFind()
    ensures HasFindByOrSearchByPattern("findById") && !HasFindByOrSearchByPattern("find")
  {
  }

  /** A class with `findById()` and `find()`: only the first method is reported. */
  lemma ClassExample(md: Node, md2: Node)
    requires md == MethodDef(Identifier("findById"), FunctionExpr(None, [], []))
    requires md2 == MethodDef(Identifier("find"), FunctionExpr(None, [], []))
    ensures Lint(OtherNode([md, md2])) == [Report(Message, md, map[])]
  {
    FindByIdAndFind();
    FlaggedThenQuietClass(md, md2, "findById", "find");
  }
}
