/**
 * The layering rule between features and flows: flows compose features, so a file inside a
 * `features` directory must not import from a `flows` directory.
 */
module FeaturesImportFlows {
  import opened Strings
  import opened Estree
  import opened Linter

  const Message := "noFeaturesImportFlows"

  /** The scan for `/[/\\]features[/\\]/` from index `i`. */
  predicate FeaturesDirFrom(s: string, i: nat)
    decreases |s| - i
  {
    i + 10 <= |s| &&
    ((IsPathSep(s[i]) && MatchesAt(s, "features", i + 1) && IsPathSep(s[i + 9])) || FeaturesDirFrom(s, i + 1))
  }

  /** The file lies in a `features` directory: some separator, `features`, separator. */
  predicate InFeaturesDir(filename: string)
  {
    FeaturesDirFrom(filename, 0)
  }

  /** Reference definition: a `features` directory name between two separators at index `i`. */
  ghost predicate FeaturesDirAt(s: string, i: nat)
  {
    i + 10 <= |s| && IsPathSep(s[i]) && s[i + 1..i + 9] == "features" && IsPathSep(s[i + 9])
  }

  lemma {:induction false} FeaturesDirFromSpec(s: string, i: nat)
    ensures FeaturesDirFrom(s, i) <==> exists j: nat :: i <= j && FeaturesDirAt(s, j)
    decreases |s| - i
  {
    if i + 10 <= |s| {
      MatchesAtIsOccurrence(s, "features", i + 1);
      FeaturesDirFromSpec(s, i + 1);
      if IsPathSep(s[i]) && MatchesAt(s, "features", i + 1) && IsPathSep(s[i + 9]) {
        assert FeaturesDirAt(s, i);
      }
      if exists j: nat :: i <= j && FeaturesDirAt(s, j) {
        var j: nat :| i <= j && FeaturesDirAt(s, j);
        if j > i {
          assert i + 1 <= j && FeaturesDirAt(s, j);
        } else {
          assert OccursAt(s, "features", i + 1);
        }
      }
    } else {
      forall j: nat | i <= j
        ensures !FeaturesDirAt(s, j)
      {
      }
    }
  }

  /** The gate holds exactly when a `features` directory occurs somewhere in the file name. */
  lemma InFeaturesDirSpec(filename: string)
    ensures InFeaturesDir(filename) <==> exists j: nat :: FeaturesDirAt(filename, j)
  {
    FeaturesDirFromSpec(filename, 0);
  }

  /** An import into `flows`: `/flows/` or `\flows\` anywhere, or a bare `flows/` at the start. */
  predicate ImportsFlows(source: string)
  {
    Contains(source, "/flows/") || Contains(source, "\\flows\\") || StartsWith(source, "flows/")
  }

  predicate Flagged(n: Node)
  {
    n.ImportDecl? && ImportsFlows(n.source)
  }

  function FlowsReport(n: Node): Report
  {
    Report(Message, n, map[])
  }

  function Handler(n: Node): seq<Report>
  {
    match n
    case ImportDecl(source) => if ImportsFlows(source) then [FlowsReport(n)] else []
    case _ => []
  }

  function Lint(filename: string, root: Node): seq<Report>
  {
    if InFeaturesDir(filename) then Collect(root, Handler) else []
  }

  /** In a features file each import into `flows` is reported once, in order; elsewhere none is. */
  lemma LintReportsFlowsImports(filename: string, root: Node)
    ensures Lint(filename, root) == if InFeaturesDir(filename) then MapReports(Filter(PreOrder(root), Flagged), FlowsReport) else []
  {
    FlatMapSingles(PreOrder(root), Handler, Flagged, FlowsReport);
  }

  lemma AliasImportFlagged()
    ensures ImportsFlows("@/flows/checkout")
  {
    assert MatchesAt("@/flows/checkout", "/flows/", 1);
    ContainsMatch("@/flows/checkout", "/flows/", 1);
  }

  lemma RelativeImportFlagged()
    ensures ImportsFlows("../../flows/checkout")
  {
    assert MatchesAt("../../flows/checkout", "/flows/", 5);
    ContainsMatch("../../flows/checkout", "/flows/", 5);
  }

  lemma BackslashImportFlagged()
    ensures ImportsFlows("..\\flows\\checkout")
  {
    assert MatchesAt("..\\flows\\checkout", "\\flows\\", 2);
    ContainsMatch("..\\flows\\checkout", "\\flows\\", 2);
  }

  /** A bare `flows/...` specifier is caught by the anchored test. */
  lemma BareImportFlagged()
    ensures ImportsFlows("flows/checkout")
  {
  }

  /** Without a trailing separator `../flows` is not an import into `flows`. */
  lemma NoTrailingSeparatorMiss()
    ensures !ImportsFlows("../flows")
  {
  }

  /** Mixed separators around `flows` do not count. */
  lemma MixedSeparatorsMiss()
    ensures !ImportsFlows("..\\flows/checkout")
  {
    assert !ContainsFrom("..\\flows/checkout", "/flows/", 5);
    assert !ContainsFrom("..\\flows/checkout", "\\flows\\", 5);
  }

  /** A `flows` prefix of a longer name does not count. */
  lemma LongerNameMiss()
    ensures !ImportsFlows("./flowsHelper")
  {
    MissingCharNotContained("./flowsHelper", "\\flows\\", 0);
    assert !MatchesAt("./flowsHelper", "/flows/", 0);
    assert !MatchesAt("./flowsHelper", "/flows/", 1);
    assert !ContainsFrom("./flowsHelper", "/flows/", 2);
  }

  lemma SlashFilenameExample()
    ensures InFeaturesDir("/src/features/user/a.ts")
  {
    assert FeaturesDirFrom("/src/features/user/a.ts", 4);
  }

  lemma BackslashFilenameExample()
    ensures InFeaturesDir("C:\\app\\features\\user\\a.ts")
  {
    assert FeaturesDirFrom("C:\\app\\features\\user\\a.ts", 6);
  }

  /** A relative name without a separator before `features`, and `myfeatures`, do not count. */
  lemma FilenameNearMisses()
    ensures !InFeaturesDir("features/user/a.ts")
    ensures !InFeaturesDir("/src/myfeatures/a.ts")
  {
  }
}
