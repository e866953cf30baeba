/**
 * The rule against relation-loading repository methods: in a file whose name contains `Repository`, a
 * declaration whose name contains `With` followed by an upper-case letter (`findByIdWithEbayListing`)
 * is reported, because related rows belong in an `include` option.
 */
module WithRelationMethod {
  import opened Wrappers
  import opened Strings
  import opened Estree
  import opened Linter
  import opened DeclaredNames

  const Message := "noWithRelationMethod"

  /** The case-sensitive `/With[A-Z]/` scan from index `i`. */
  predicate WithUpperFrom(name: string, i: nat)
    decreases |name| - i
  {
    i + 4 < |name| && ((MatchesAt(name, "With", i) && IsUpperAscii(name[i + 4])) || WithUpperFrom(name, i + 1))
  }

  /** `/With[A-Z]/.test(name)`, after the empty-name guard. */
  predicate HasWithPattern(name: string)
  {
    name != "" && WithUpperFrom(name, 0)
  }

  /** Reference definition: `With` then a capital letter at index `i`. */
  ghost predicate WithUpperAt(name: string, i: nat)
  {
    i + 4 < |name| && name[i..i + 4] == "With" && IsUpperAscii(name[i + 4])
  }

  lemma {:induction false} WithUpperFromSpec(name: string, i: nat)
    ensures WithUpperFrom(name, i) <==> exists j: nat :: i <= j && WithUpperAt(name, j)
    decreases |name| - i
  {
    if i + 4 < |name| {
      MatchesAtIsOccurrence(name, "With", i);
      WithUpperFromSpec(name, i + 1);
      if MatchesAt(name, "With", i) && IsUpperAscii(name[i + 4]) {
        assert WithUpperAt(name, i);
      }
      if exists j: nat :: i <= j && WithUpperAt(name, j) {
        var j: nat :| i <= j && WithUpperAt(name, j);
        if j > i {
          assert i + 1 <= j && WithUpperAt(name, j);
        } else {
          assert OccursAt(name, "With", i);
        }
      }
    } else {
      forall j: nat | i <= j
        ensures !WithUpperAt(name, j)
      {
      }
    }
  }

  /** The scan finds `With` plus a capital exactly when one occurs somewhere in the name. */
  lemma HasWithPatternSpec(name: string)
    ensures HasWithPattern(name) <==> exists j: nat :: WithUpperAt(name, j)
  {
    WithUpperFromSpec(name, 0);
  }

  /** The declarations the rule reports once it is active. */
  predicate Flagged(n: Node)
  {
    CheckedName(n).Some? && HasWithPattern(CheckedName(n).value)
  }

  function FlaggedReport(n: Node): Report
  {
    Report(Message, n, map[])
  }

  function Handler(n: Node): seq<Report>
  {
    match CheckedName(n)
    case Some(name) => if HasWithPattern(name) then [FlaggedReport(n)] else []
    case None => []
  }

  /** The rule is active only in files whose name contains `Repository` (case-sensitive). */
  function Lint(filename: string, root: Node): seq<Report>
  {
    if Contains(filename, "Repository") then Collect(root, Handler) else []
  }

  /** In a repository file every flagged declaration is reported once, in order; elsewhere nothing is. */
  lemma LintReportsFlaggedDeclarations(filename: string, root: Node)
    ensures Lint(filename, root) ==
      if Contains(filename, "Repository") then MapReports(Filter(PreOrder(root), Flagged), FlaggedReport) else []
  {
    FlatMapSingles(PreOrder(root), Handler, Flagged, FlaggedReport);
  }

  lemma PositiveNameExamples()
    ensures HasWithPattern("findByIdWithEbayListing")
    ensures HasWithPattern("getProductWithRelations")
  {
    assert MatchesAt("findByIdWithEbayListing", "With", 8);
    assert WithUpperFrom("findByIdWithEbayListing", 8);
    assert MatchesAt("getProductWithRelations", "With", 10);
    assert WithUpperFrom("getProductWithRelations", 10);
  }

  /** Lower-case `with`, `With` at the end, `With` before a lower-case letter, and `WITH` are not flagged. */
  lemma NegativeNameExamples()
    ensures !HasWithPattern("withItems")
    ensures !HasWithPattern("findWith")
    ensures !HasWithPattern("findWithout")
    ensures !HasWithPattern("findWITHItems")
  {
    assert !HasWithPattern("withItems");
    assert !HasWithPattern("findWith");
    assert !HasWithPattern("findWithout");
  }

  /** A method `name() {}` is reported once when its name has the pattern, and otherwise not at all. */
  lemma MethodDeclarationWalk(md: Node, name: string)
    requires md == MethodDef(Identifier(name), FunctionExpr(None, [], []))
    ensures Collect(md, Handler) == if HasWithPattern(name) then [FlaggedReport(md)] else []
  {
    CollectLeaf(Identifier(name), Handler);
    CollectLeaf(md.value, Handler);
    CollectTwoChildren(md, Identifier(name), md.value, Handler);
  }

  /** `findWithItems() {}` is a flagged declaration. */
  lemma WithItemsDeclarationReported(md: Node)
    requires md == MethodDef(Identifier("findWithItems"), FunctionExpr(None, [], []))
    ensures Collect(md, Handler) == [Report(Message, md, map[])]
  {
    assert MatchesAt("findWithItems", "With", 4);
    assert HasWithPattern("findWithItems");
    MethodDeclarationWalk(md, "findWithItems");
  }

  lemma RepositoryFileName()
    ensures Contains("/src/userRepository.ts", "Repository")
  {
    assert MatchesFrom("/src/userRepository.ts", "Repository", 9, 0);
    ContainsMatch("/src/userRepository.ts", "Repository", 9);
  }

  /** `findWithItems()` is reported in `userRepository.ts`. */
  lemma RepositoryFileExample(md: Node)
    requires md == MethodDef(Identifier("findWithItems"), FunctionExpr(None, [], []))
    ensures Lint("/src/userRepository.ts", md) == [Report(Message, md, map[])]
  {
    WithItemsDeclarationReported(md);
    RepositoryFileName();
  }

  /** The same method is ignored in `userService.ts` and in `repository.ts`: the gate is case-sensitive. */
  lemma OtherFileExamples(md: Node)
    requires md == MethodDef(Identifier("findWithItems"), FunctionExpr(None, [], []))
    ensures Lint("/src/userService.ts", md) == [] && Lint("/src/repository.ts", md) == []
  {
    MissingCharNotContained("/src/userService.ts", "Repository", 0);
    MissingCharNotContained("/src/repository.ts", "Repository", 0);
  }
}
