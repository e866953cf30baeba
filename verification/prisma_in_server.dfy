/**
 * The rule against direct Prisma use in server modules: in a `.server.ts`/`.server.js` or
 * `+server.ts`/`+server.js` file other than the hooks file, an import whose source mentions `prisma`
 * and any member access on an identifier spelled `prisma` in any case are reported.
 */
module PrismaInServer {
  import opened Strings
  import opened Estree
  import opened Linter
  import TryCatchInServer

  const Message := "noPrisma"

  /** `hooks.server.ts`/`.js`, which may use Prisma to set up authentication. */
  predicate IsHooksFile(filename: string)
  {
    Contains(filename, "hooks.server.ts") || Contains(filename, "hooks.server.js")
  }

  predicate IsServerFile(filename: string)
  {
    EndsWith(filename, ".server.ts") || EndsWith(filename, ".server.js")
    || EndsWith(filename, "+server.ts") || EndsWith(filename, "+server.js")
  }

  /** The hooks exemption is tested first, then the file suffix. */
  predicate IsActive(filename: string)
  {
    !IsHooksFile(filename) && IsServerFile(filename)
  }

  /** An import of `@prisma/client` or of any source whose text contains `prisma` (case-sensitive). */
  predicate IsPrismaImport(n: Node)
  {
    n.ImportDecl? && (n.source == "@prisma/client" || Contains(n.source, "prisma"))
  }

  /** A member access whose object is an identifier that lower-cases to `prisma`. */
  predicate IsPrismaAccess(n: Node)
  {
    n.MemberExpr? && n.obj.Identifier? && ToLower(n.obj.name) == "prisma"
  }

  predicate Flagged(n: Node)
  {
    IsPrismaImport(n) || IsPrismaAccess(n)
  }

  function PrismaReport(n: Node): Report
  {
    Report(Message, n, map[])
  }

  function Handler(n: Node): seq<Report>
  {
    match n
    case ImportDecl(source) =>
      if source == "@prisma/client" || Contains(source, "prisma") then [PrismaReport(n)] else []
    case MemberExpr(obj, _) =>
      if obj.Identifier? && ToLower(obj.name) == "prisma" then [PrismaReport(n)] else []
    case _ => []
  }

  function Lint(filename: string, root: Node): seq<Report>
  {
    if IsActive(filename) then Collect(root, Handler) else []
  }

  /** In an active file each flagged import or member access is reported once, in order. */
  lemma LintReportsFlaggedNodes(filename: string, root: Node)
    ensures Lint(filename, root) == if IsActive(filename) then MapReports(Filter(PreOrder(root), Flagged), PrismaReport) else []
  {
    FlatMapSingles(PreOrder(root), Handler, Flagged, PrismaReport);
  }

  /** The exact comparison with `@prisma/client` adds nothing: that source already contains `prisma`. */
  lemma ExactSourceRedundant(n: Node)
    ensures IsPrismaImport(n) <==> n.ImportDecl? && Contains(n.source, "prisma")
  {
    if n.ImportDecl? && n.source == "@prisma/client" {
      assert MatchesAt(n.source, "prisma", 1);
      ContainsMatch(n.source, "prisma", 1);
    }
  }

  /**
   * The files the try/catch rule checks are all checked by this rule too, unless they are the hooks
   * file: `+page.server.ts` ends in `.server.ts`.
   */
  lemma TryCatchFilesAreServerFiles(filename: string)
    requires TryCatchInServer.IsServerFile(filename) && !IsHooksFile(filename)
    ensures IsActive(filename)
  {
    assert EndsWith("+page.server.ts", ".server.ts") by {
      assert MatchesFrom("+page.server.ts", ".server.ts", 5, 0);
    }
    assert EndsWith("+page.server.js", ".server.js") by {
      assert MatchesFrom("+page.server.js", ".server.js", 5, 0);
    }
    if EndsWith(filename, "+page.server.ts") {
      EndsWithTransitive(filename, "+page.server.ts", ".server.ts");
    } else if EndsWith(filename, "+page.server.js") {
      EndsWithTransitive(filename, "+page.server.js", ".server.js");
    }
  }

  /** The hooks file is exempt although it ends in `.server.ts`, whatever directory it is in. */
  lemma HooksFileExempt(dir: string, root: Node)
    ensures IsServerFile(dir + "hooks.server.ts")
    ensures Lint(dir + "hooks.server.ts", root) == []
  {
    var f := dir + "hooks.server.ts";
    assert f == (dir + "hooks") + ".server.ts";
    EndsWithConcat(dir + "hooks", ".server.ts");
    assert f == dir + "hooks.server.ts" + "";
    ContainsConcat(dir, "hooks.server.ts", "");
  }

  /** `prisma.user.findMany` is reported once, at the inner access `prisma.user`. */
  lemma ChainedAccessReportedOnce(inner: Node, outer: Node)
    requires inner == MemberExpr(Identifier("prisma"), Identifier("user"))
    requires outer == MemberExpr(inner, Identifier("findMany"))
    ensures Collect(outer, Handler) == [PrismaReport(inner)]
  {
    assert ToLower("prisma") == "prisma";
    CollectLeaf(Identifier("prisma"), Handler);
    CollectLeaf(Identifier("user"), Handler);
    CollectLeaf(Identifier("findMany"), Handler);
    CollectTwoChildren(inner, Identifier("prisma"), Identifier("user"), Handler);
    CollectTwoChildren(outer, inner, Identifier("findMany"), Handler);
  }

  /** Imports of `@prisma/client` and of `$lib/server/prisma` are flagged. */
  lemma ImportExamples()
    ensures Flagged(ImportDecl("@prisma/client"))
    ensures Flagged(ImportDecl("$lib/server/prisma"))
  {
    assert MatchesAt("$lib/server/prisma", "prisma", 12);
    ContainsMatch("$lib/server/prisma", "prisma", 12);
  }

  /** The source test is case-sensitive: `$lib/server/Prisma` is not flagged. */
  lemma CapitalisedImportExample()
    ensures !Flagged(ImportDecl("$lib/server/Prisma"))
  {
    MissingCharNotContained("$lib/server/Prisma", "prisma", 0);
  }

  /** `Prisma.TransactionClient` is flagged in any case; `this.prisma.user` has no identifier object. */
  lemma AccessExamples()
    ensures Flagged(MemberExpr(Identifier("Prisma"), Identifier("TransactionClient")))
    ensures !Flagged(MemberExpr(MemberExpr(ThisExpr, Identifier("prisma")), Identifier("user")))
  {
    assert ToLower("Prisma") == "prisma";
  }
}
