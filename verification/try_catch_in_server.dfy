/**
 * The rule against `try`/`catch` in SvelteKit endpoint and page-server files: in a file named
 * `+server.ts`, `+page.server.ts` or their `.js` forms every `try` statement is reported, because
 * errors are meant to be handled once in `hooks.server.ts`.
 */
module TryCatchInServer {
  import opened Strings
  import opened Estree
  import opened Linter

  const Message := "noTryCatch"

  /** The file suffixes the rule applies to. */
  predicate IsServerFile(filename: string)
  {
    EndsWith(filename, "+server.ts") || EndsWith(filename, "+page.server.ts")
    || EndsWith(filename, "+server.js") || EndsWith(filename, "+page.server.js")
  }

  predicate IsTry(n: Node)
  {
    n.TryStmt?
  }

  function TryReport(n: Node): Report
  {
    Report(Message, n, map[])
  }

  function Handler(n: Node): seq<Report>
  {
    if n.TryStmt? then [TryReport(n)] else []
  }

  function Lint(filename: string, root: Node): seq<Report>
  {
    if IsServerFile(filename) then Collect(root, Handler) else []
  }

  /** In a server file each `try` statement is reported once, in visiting order; elsewhere none is. */
  lemma LintReportsEveryTry(filename: string, root: Node)
    ensures Lint(filename, root) == if IsServerFile(filename) then MapReports(Filter(PreOrder(root), IsTry), TryReport) else []
  {
    FlatMapSingles(PreOrder(root), Handler, IsTry, TryReport);
  }

  /** Every file ending in one of the four names is checked, whatever directory it is in. */
  lemma ServerFileSuffixes(dir: string)
    ensures IsServerFile(dir + "+server.ts") && IsServerFile(dir + "+page.server.ts")
    ensures IsServerFile(dir + "+server.js") && IsServerFile(dir + "+page.server.js")
  {
    EndsWithConcat(dir, "+server.ts");
    EndsWithConcat(dir, "+page.server.ts");
    EndsWithConcat(dir, "+server.js");
    EndsWithConcat(dir, "+page.server.js");
  }

  /**
   * A file is not checked when neither the character ten places from its end nor the one fifteen
   * places from its end is `+`; a name too short to hold a suffix has no such place to look at.
   */
  lemma NotServerFileBy(s: string)
    requires |s| < 10 || s[|s| - 10] != '+'
    requires |s| < 15 || s[|s| - 15] != '+'
    ensures !IsServerFile(s)
  {
    NotEndsWithAt(s, "+server.ts", 0);
    NotEndsWithAt(s, "+server.js", 0);
    NotEndsWithAt(s, "+page.server.ts", 0);
    NotEndsWithAt(s, "+page.server.js", 0);
  }

  /** A plain `.server.ts` module, the hooks file and a universal page file are not checked. */
  lemma OtherFileExamples()
    ensures !IsServerFile("src/lib/users.server.ts")
    ensures !IsServerFile("src/hooks.server.ts")
    ensures !IsServerFile("src/routes/users/+page.ts")
  {
    NotServerFileBy("src/lib/users.server.ts");
    NotServerFileBy("src/hooks.server.ts");
    NotServerFileBy("src/routes/users/+page.ts");
  }

  /** A `try` nested inside another `try` is reported as well: both statements, outer first. */
  lemma NestedTryCollect(inner: Node, outer: Node)
    requires inner == TryStmt([])
    requires outer == TryStmt([OtherNode([inner])])
    ensures Collect(outer, Handler) == [TryReport(outer), TryReport(inner)]
  {
    CollectLeaf(inner, Handler);
    CollectOneChild(OtherNode([inner]), inner, Handler);
    CollectOneChild(outer, OtherNode([inner]), Handler);
  }

  /** So in `src/routes/+server.ts` the nested `try` statements are both reported. */
  lemma NestedTryExample(inner: Node, outer: Node)
    requires inner == TryStmt([])
    requires outer == TryStmt([OtherNode([inner])])
    ensures Lint("src/routes/" + "+server.ts", outer) == [TryReport(outer), TryReport(inner)]
  {
    NestedTryCollect(inner, outer);
    ServerFileSuffixes("src/routes/");
  }
}
