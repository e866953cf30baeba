/**
 * The rule against wrapper types for arguments and results: a type alias or interface whose name ends
 * in `Input`, `Output`, `Params` or `Result` is reported, with the name in the message.
 */
module InputOutputParamsType {
  import opened Wrappers
  import opened Strings
  import opened Estree
  import opened Linter

  const Message := "noInputOutputParamsType"

  /** The suffixes of `/(Input|Output|Params|Result)$/`. */
  const Suffixes: seq<string> := ["Input", "Output", "Params", "Result"]

  /** `/(Input|Output|Params|Result)$/.test(name)`, after the empty-name guard. */
  predicate HasInputOutputParamsPattern(name: string)
  {
    name != "" &&
    (EndsWith(name, "Input") || EndsWith(name, "Output") || EndsWith(name, "Params") || EndsWith(name, "Result"))
  }

  /** The declared name of a type alias or interface whose id is an identifier. */
  function TypeName(n: Node): (r: Option<string>)
    ensures r.Some? ==> (n.TypeAlias? || n.InterfaceDecl?) && n.id == Some(Identifier(r.value))
    ensures (n.TypeAlias? || n.InterfaceDecl?) && n.id.Some? && n.id.value.Identifier? ==> r.Some?
  {
    match n
    case TypeAlias(id) => if id.Some? then NameOf(id.value) else None
    case InterfaceDecl(id) => if id.Some? then NameOf(id.value) else None
    case _ => None
  }

  predicate Flagged(n: Node)
  {
    TypeName(n).Some? && HasInputOutputParamsPattern(TypeName(n).value)
  }

  /** The report for a flagged declaration: the message's `{{name}}` is the declared name. */
  function ReportFor(n: Node): Report
  {
    Report(Message, n, map["name" := TypeName(n).GetOr("")])
  }

  function Handler(n: Node): seq<Report>
  {
    match TypeName(n)
    case Some(name) => if HasInputOutputParamsPattern(name) then [Report(Message, n, map["name" := name])] else []
    case None => []
  }

  function Lint(root: Node): seq<Report>
  {
    Collect(root, Handler)
  }

  /** Reference definition: `name` ends in `suffix`. */
  ghost predicate EndsIn(name: string, suffix: string)
  {
    |suffix| <= |name| && name[|name| - |suffix|..] == suffix
  }

  /** The pattern read on slices: the name ends in one of the four suffixes. */
  lemma PatternIsSuffix(name: string)
    ensures HasInputOutputParamsPattern(name) <==> exists k :: 0 <= k < |Suffixes| && EndsIn(name, Suffixes[k])
  {
    forall k | 0 <= k < |Suffixes|
      ensures EndsIn(name, Suffixes[k]) <==> EndsWith(name, Suffixes[k])
    {
      EndsWithIsSuffix(name, Suffixes[k]);
    }
    assert Suffixes[0] == "Input" && Suffixes[1] == "Output" && Suffixes[2] == "Params" && Suffixes[3] == "Result";
    if HasInputOutputParamsPattern(name) {
      var k := if EndsWith(name, "Input") then 0 else if EndsWith(name, "Output") then 1
               else if EndsWith(name, "Params") then 2 else 3;
      assert EndsIn(name, Suffixes[k]);
    }
    if exists k :: 0 <= k < |Suffixes| && EndsIn(name, Suffixes[k]) {
      var k :| 0 <= k < |Suffixes| && EndsIn(name, Suffixes[k]);
      assert EndsWith(name, Suffixes[k]);
      assert name != "";
    }
  }

  /** Every flagged type declaration is reported once, in order, naming itself; nothing else is. */
  lemma LintReportsFlaggedTypes(root: Node)
    ensures Lint(root) == MapReports(Filter(PreOrder(root), Flagged), ReportFor)
  {
    FlatMapSingles(PreOrder(root), Handler, Flagged, ReportFor);
  }

  lemma NameExamples()
    ensures HasInputOutputParamsPattern("CreateHearingSheetInput")
    ensures HasInputOutputParamsPattern("CreateHearingSheetOutput")
    ensures HasInputOutputParamsPattern("SearchParams")
    ensures HasInputOutputParamsPattern("Result")
    ensures !HasInputOutputParamsPattern("InputForm")
    ensures !HasInputOutputParamsPattern("UserInputs")
    ensures !HasInputOutputParamsPattern("Userinput")
  {
  }

  /** A type declaration is visited as itself and its name. */
  lemma TypeDeclCollect(n: Node, x: string)
    requires n == InterfaceDecl(Some(Identifier(x))) || n == TypeAlias(Some(Identifier(x)))
    ensures Collect(n, Handler) == Handler(n)
  {
    CollectLeaf(Identifier(x), Handler);
    CollectOneChild(n, Identifier(x), Handler);
  }

  /** A declaration with a flagged name is reported once, naming it. */
  lemma FlaggedTypeDecl(n: Node, x: string)
    requires n == InterfaceDecl(Some(Identifier(x))) || n == TypeAlias(Some(Identifier(x)))
    requires HasInputOutputParamsPattern(x)
    ensures Collect(n, Handler) == [Report(Message, n, map["name" := x])]
  {
    TypeDeclCollect(n, x);
  }

  /** A declaration with any other name is not reported. */
  lemma QuietTypeDecl(n: Node, x: string)
    requires n == InterfaceDecl(Some(Identifier(x))) || n == TypeAlias(Some(Identifier(x)))
    requires !HasInputOutputParamsPattern(x)
    ensures Collect(n, Handler) == []
  {
    TypeDeclCollect(n, x);
  }

  lemma CreateUserInputAndUser()
    ensures HasInputOutputParamsPattern("CreateUserInput") && !HasInputOutputParamsPattern("User")
  {
  }

  lemma CreateUserInputReported(i: Node)
    requires i == InterfaceDecl(Some(Identifier("CreateUserInput")))
    ensures Collect(i, Handler) == [Report(Message, i, map["name" := "CreateUserInput"])]
  {
    CreateUserInputAndUser();
    FlaggedTypeDecl(i, "CreateUserInput");
  }

  lemma UserNotReported(t: Node)
    requires t == TypeAlias(Some(Identifier("User")))
    ensures Collect(t, Handler) == []
  {
    CreateUserInputAndUser();
    QuietTypeDecl(t, "User");
  }

  /** Two declarations side by side, the first reported and the second not: only the first report. */
  lemma ReportedThenQuiet(a: Node, b: Node, r: seq<Report>)
    requires Collect(a, Handler) == r && Collect(b, Handler) == []
    ensures Lint(OtherNode([a, b])) == r
  {
    CollectTwoChildren(OtherNode([a, b]), a, b, Handler);
  }

  /** `interface CreateUserInput {}` is reported with its name; `type User = ...` is not. */
  lemma DeclarationExamples(i: Node, t: Node)
    requires i == InterfaceDecl(Some(Identifier("CreateUserInput")))
    requires t == TypeAlias(Some(Identifier("User")))
    ensures Lint(OtherNode([i, t])) == [Report(Message, i, map["name" := "CreateUserInput"])]
  {
    CreateUserInputReported(i);
    UserNotReported(t);
    ReportedThenQuiet(i, t, [Report(Message, i, map["name" := "CreateUserInput"])]);
  }
}
