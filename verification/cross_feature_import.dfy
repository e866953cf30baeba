/**
 * The rule against one feature importing another.  A file is a feature file when its path has a
 * `features/<name>/` directory; `<name>` is its feature.  Each of its imports faces two independent
 * checks, and each check that fires reports the import once:
 *  - the features check: a specifier that contains `/features/` or climbs two `../` steps on one line,
 *    and names `features/<other>/` for another feature;
 *  - the sibling check: a specifier with at least three leading `..` segments whose next segment is
 *    neither an allowed shared directory nor the file's own feature directory.
 */
module CrossFeatureImport {
  import opened Wrappers
  import opened Strings
  import opened Estree
  import opened Linter
  import FeaturesImportFlows

  const Message := "noCrossFeatureImport"

  /** The end of the run of non-separators starting at `i`: the next separator, or the end. */
  function RunEnd(s: string, i: nat): (r: nat)
    requires i <= |s|
    ensures i <= r <= |s|
    ensures forall k :: i <= k < r ==> !IsPathSep(s[k])
    ensures r == |s| || IsPathSep(s[r])
    decreases |s| - i
  {
    if i == |s| || IsPathSep(s[i]) then i else RunEnd(s, i + 1)
  }

  /** The width of the leading separator: the file-name pattern has one, the specifier pattern none. */
  function Lead(lead: bool): nat
  {
    if lead then 1 else 0
  }

  /**
   * The pattern `[/\\]features[/\\]([^/\\]+)[/\\]` (with `lead`) or `features[/\\]([^/\\]+)[/\\]`
   * (without) matches at `i`.  The group cannot hold a separator, so it runs to the next one; the
   * match succeeds when that run is not empty and a separator, not the end, closes it.
   */
  predicate MatchAt(s: string, lead: bool, i: nat)
  {
    var f := i + Lead(lead);
    f + 9 <= |s| && (lead ==> IsPathSep(s[i])) && MatchesAt(s, "features", f) && IsPathSep(s[f + 8])
    && f + 9 < RunEnd(s, f + 9) < |s|
  }

  /** The captured group of a match at `i`. */
  function SegmentAt(s: string, lead: bool, i: nat): string
    requires i + Lead(lead) + 9 <= |s|
  {
    var f := i + Lead(lead);
    s[f + 9..RunEnd(s, f + 9)]
  }

  /** Reference definition: at `i` stand the (optional) separator, `features`, a separator, `seg`, a separator. */
  ghost predicate MarkerSegmentAt(s: string, lead: bool, i: nat, seg: string)
  {
    var f := i + Lead(lead);
    var e := f + 9 + |seg|;
    e < |s| && (lead ==> IsPathSep(s[i])) && s[f..f + 8] == "features" && IsPathSep(s[f + 8])
    && seg != [] && s[f + 9..e] == seg && FreeOf(seg, PathSeps) && IsPathSep(s[e])
  }

  lemma MatchAtIsMarker(s: string, lead: bool, i: nat)
    requires MatchAt(s, lead, i)
    ensures MarkerSegmentAt(s, lead, i, SegmentAt(s, lead, i))
  {
    var f := i + Lead(lead);
    MatchesAtIsOccurrence(s, "features", f);
    var seg := SegmentAt(s, lead, i);
    forall j | 0 <= j < |seg|
      ensures seg[j] !in PathSeps
    {
      assert seg[j] == s[f + 9 + j];
    }
  }

  lemma MarkerIsMatchAt(s: string, lead: bool, i: nat, seg: string)
    requires MarkerSegmentAt(s, lead, i, seg)
    ensures MatchAt(s, lead, i) && SegmentAt(s, lead, i) == seg
  {
    var f := i + Lead(lead);
    var e := f + 9 + |seg|;
    MatchesAtIsOccurrence(s, "features", f);
    forall k | f + 9 <= k < e
      ensures !IsPathSep(s[k])
    {
      assert s[k] == seg[k - (f + 9)];
    }
    assert RunEnd(s, f + 9) == e;
  }

  /** The leftmost match at or after `i`, as JavaScript's `String.prototype.match` finds it. */
  function FirstMarkerIndex(s: string, lead: bool, i: nat): (r: Option<nat>)
    ensures r.Some? ==> i <= r.value && MatchAt(s, lead, r.value)
    ensures r.Some? ==> forall k :: i <= k < r.value ==> !MatchAt(s, lead, k)
    ensures r.None? ==> forall k :: i <= k ==> !MatchAt(s, lead, k)
    decreases |s| - i
  {
    if i >= |s| then None
    else if MatchAt(s, lead, i) then Some(i)
    else FirstMarkerIndex(s, lead, i + 1)
  }

  /** The captured feature name of the leftmost match, if any. */
  function FirstMarker(s: string, lead: bool): Option<string>
  {
    match FirstMarkerIndex(s, lead, 0)
    case Some(i) => Some(SegmentAt(s, lead, i))
    case None => None
  }

  ghost predicate NoMarkerBefore(s: string, lead: bool, i: nat)
  {
    forall k: nat, seg: string :: k < i ==> !MarkerSegmentAt(s, lead, k, seg)
  }

  /** `FirstMarker` finds nothing exactly when the pattern occurs nowhere. */
  lemma FirstMarkerNone(s: string, lead: bool)
    ensures FirstMarker(s, lead) == None <==> forall i: nat, seg: string :: !MarkerSegmentAt(s, lead, i, seg)
  {
    var r := FirstMarkerIndex(s, lead, 0);
    if r.Some? {
      MatchAtIsMarker(s, lead, r.value);
    } else {
      forall i: nat, seg: string
        ensures !MarkerSegmentAt(s, lead, i, seg)
      {
        if MarkerSegmentAt(s, lead, i, seg) {
          MarkerIsMatchAt(s, lead, i, seg);
        }
      }
    }
  }

  /** An occurrence at `i` rules out every later start as the leftmost one. */
  lemma MarkerBlocksLater(s: string, lead: bool, i: nat, seg: string, j: nat)
    ensures MarkerSegmentAt(s, lead, i, seg) && NoMarkerBefore(s, lead, j) ==> j <= i
  {
    if i < j {
      assert NoMarkerBefore(s, lead, j) ==> !MarkerSegmentAt(s, lead, i, seg);
    }
  }

  /** `FirstMarker` captures the group of the leftmost occurrence of the pattern. */
  lemma FirstMarkerIsLeftmost(s: string, lead: bool, seg: string)
    ensures FirstMarker(s, lead) == Some(seg)
        <==> exists i: nat :: MarkerSegmentAt(s, lead, i, seg) && NoMarkerBefore(s, lead, i)
  {
    var r := FirstMarkerIndex(s, lead, 0);
    if r.Some? {
      var i := r.value;
      MatchAtIsMarker(s, lead, i);
      forall k: nat, seg': string | k < i
        ensures !MarkerSegmentAt(s, lead, k, seg')
      {
        if MarkerSegmentAt(s, lead, k, seg') {
          MarkerIsMatchAt(s, lead, k, seg');
        }
      }
      assert NoMarkerBefore(s, lead, i);
      forall j: nat | MarkerSegmentAt(s, lead, j, seg) && NoMarkerBefore(s, lead, j)
        ensures j == i && SegmentAt(s, lead, i) == seg
      {
        MarkerIsMatchAt(s, lead, j, seg);
        MarkerBlocksLater(s, lead, i, SegmentAt(s, lead, i), j);
      }
    } else {
      FirstMarkerNone(s, lead);
    }
  }

  /** The file's feature: the name after the first `<sep>features<sep>` that is closed by a separator. */
  function CurrentFeature(filename: string): Option<string>
  {
    FirstMarker(filename, true)
  }

  /** The feature a specifier names: the name after its first `features<sep>` closed by a separator. */
  function ImportedFeature(source: string): Option<string>
  {
    FirstMarker(source, false)
  }

  /** A file with a feature lies in a `features` directory in the sense of the flows rule as well. */
  lemma FeatureFilesAreInFeaturesDir(filename: string)
    ensures CurrentFeature(filename).Some? ==> FeaturesImportFlows.InFeaturesDir(filename)
  {
    var r := FirstMarkerIndex(filename, true, 0);
    if r.Some? {
      var i := r.value;
      MatchesAtIsOccurrence(filename, "features", i + 1);
      assert FeaturesImportFlows.FeaturesDirAt(filename, i);
      FeaturesImportFlows.InFeaturesDirSpec(filename);
    }
  }

  /** The characters the `.` of a regular expression does not match. */
  predicate IsLineTerminator(c: char)
  {
    c == '\n' || c == '\r' || c == '\U{2028}' || c == '\U{2029}'
  }

  ghost predicate LineFree(s: string, i: nat, j: nat)
  {
    forall k :: i <= k < j ==> k < |s| && !IsLineTerminator(s[k])
  }

  /** A `../` starts at `j` or later with no line terminator before it. */
  predicate UpStepOnLineFrom(s: string, j: nat)
    decreases |s| - j
  {
    if j >= |s| then false
    else if MatchesAt(s, "../", j) then true
    else if IsLineTerminator(s[j]) then false
    else UpStepOnLineFrom(s, j + 1)
  }

  lemma {:induction false} UpStepOnLineFromSpec(s: string, j: nat)
    ensures UpStepOnLineFrom(s, j) <==> exists b: nat :: j <= b && OccursAt(s, "../", b) && LineFree(s, j, b)
    decreases |s| - j
  {
    if j < |s| {
      MatchesAtIsOccurrence(s, "../", j);
      if MatchesAt(s, "../", j) {
        assert OccursAt(s, "../", j) && LineFree(s, j, j);
      } else {
        UpStepOnLineFromSpec(s, j + 1);
        if exists b: nat :: j <= b && OccursAt(s, "../", b) && LineFree(s, j, b) {
          LaterUpStepShrinks(s, j);
        }
        if !IsLineTerminator(s[j]) && UpStepOnLineFrom(s, j + 1) {
          LaterUpStepGrows(s, j);
        }
      }
    }
  }

  /** A `../` after `j` on the line of `j`, but not at `j`, is also on the line of `j + 1`. */
  lemma LaterUpStepShrinks(s: string, j: nat)
    requires j < |s| && !OccursAt(s, "../", j)
    requires exists b: nat :: j <= b && OccursAt(s, "../", b) && LineFree(s, j, b)
    ensures !IsLineTerminator(s[j])
    ensures exists b: nat :: j + 1 <= b && OccursAt(s, "../", b) && LineFree(s, j + 1, b)
  {
    var b: nat :| j <= b && OccursAt(s, "../", b) && LineFree(s, j, b);
    assert j < b;
    assert LineFree(s, j + 1, b);
  }

  /** A `../` on the line of `j + 1`, with `s[j]` no terminator, is on the line of `j`. */
  lemma LaterUpStepGrows(s: string, j: nat)
    requires j < |s| && !IsLineTerminator(s[j])
    requires exists b: nat :: j + 1 <= b && OccursAt(s, "../", b) && LineFree(s, j + 1, b)
    ensures exists b: nat :: j <= b && OccursAt(s, "../", b) && LineFree(s, j, b)
  {
    var b: nat :| j + 1 <= b && OccursAt(s, "../", b) && LineFree(s, j + 1, b);
    assert LineFree(s, j, b);
  }

  /** Reference definition: a `../` at `a`, another at `b`, and only non-terminators between. */
  ghost predicate UpStepPair(s: string, a: nat, b: nat)
  {
    a + 3 <= b && OccursAt(s, "../", a) && OccursAt(s, "../", b) && LineFree(s, a + 3, b)
  }

  /** The pattern `\.\.\/.*\.\.\/` matches at `a` or later. */
  predicate TwoUpStepsFrom(s: string, a: nat)
    decreases |s| - a
  {
    a < |s| && ((MatchesAt(s, "../", a) && UpStepOnLineFrom(s, a + 3)) || TwoUpStepsFrom(s, a + 1))
  }

  predicate TwoUpSteps(s: string)
  {
    TwoUpStepsFrom(s, 0)
  }

  lemma {:induction false} TwoUpStepsFromSpec(s: string, a: nat)
    ensures TwoUpStepsFrom(s, a) <==> exists a': nat, b: nat :: a <= a' && UpStepPair(s, a', b)
    decreases |s| - a
  {
    if a < |s| {
      MatchesAtIsOccurrence(s, "../", a);
      TwoUpStepsFromSpec(s, a + 1);
      if MatchesAt(s, "../", a) {
        UpStepOnLineFromSpec(s, a + 3);
        if UpStepOnLineFrom(s, a + 3) {
          var b: nat :| a + 3 <= b && OccursAt(s, "../", b) && LineFree(s, a + 3, b);
          assert UpStepPair(s, a, b);
        }
      }
      if exists a': nat, b: nat :: a <= a' && UpStepPair(s, a', b) {
        var a': nat, b: nat :| a <= a' && UpStepPair(s, a', b);
        if a' == a {
          UpStepOnLineFromSpec(s, a + 3);
        } else {
          assert a + 1 <= a' && UpStepPair(s, a', b);
        }
      }
    } else {
      forall a': nat, b: nat | a <= a'
        ensures !UpStepPair(s, a', b)
      {
      }
    }
  }

  /** The relative-path test: two `../` steps with nothing but line content between them. */
  lemma TwoUpStepsSpec(s: string)
    ensures TwoUpSteps(s) <==> exists a: nat, b: nat :: UpStepPair(s, a, b)
  {
    TwoUpStepsFromSpec(s, 0);
  }

  /** The number of consecutive `..` parts from index `k`: the source's counting loop with `break`. */
  function LeadingUps(parts: seq<string>, k: nat): (r: nat)
    requires k <= |parts|
    ensures k + r <= |parts|
    ensures forall j :: k <= j < k + r ==> parts[j] == ".."
    ensures k + r == |parts| || parts[k + r] != ".."
    decreases |parts| - k
  {
    if k < |parts| && parts[k] == ".." then 1 + LeadingUps(parts, k + 1) else 0
  }

  /** The directories a climbing import may target without counting as another feature. */
  const AllowedTargets: seq<string> := ["command", "query", "utils", "types", "shared", "adapter", "flows"]

  /** The features check: the specifier's path test, then a named feature other than the current one. */
  predicate FeatureCheck(current: string, source: string)
  {
    (Contains(source, "/features/") || TwoUpSteps(source))
    && match ImportedFeature(source)
       case Some(other) => other != current
       case None => false
  }

  /**
   * The part after the first `features` part of the file name, split on either separator, differs
   * from `target`; a missing part (JavaScript's `undefined`) differs from every string.
   */
  predicate SiblingDiffers(filename: string, target: string)
  {
    var parts := Split(filename, PathSeps);
    var fi := IndexOf(parts, "features");
    fi != -1 && (fi + 1 >= |parts| || parts[fi + 1] != target)
  }

  /** The sibling check: three or more leading `..` parts, then a part that is not allowed and not ours. */
  predicate SiblingCheck(filename: string, source: string)
  {
    StartsWith(source, "..")
    && var parts := Split(source, {'/'});
    var ups := LeadingUps(parts, 0);
    ups >= 3 && ups < |parts| && parts[ups] !in AllowedTargets && SiblingDiffers(filename, parts[ups])
  }

  function CrossReport(n: Node): Report
  {
    Report(Message, n, map[])
  }

  /** The `ImportDeclaration` handler: one report per check that fires. */
  function ImportReports(filename: string, current: string, n: Node): seq<Report>
  {
    if n.ImportDecl? then
      (if FeatureCheck(current, n.source) then [CrossReport(n)] else [])
      + (if SiblingCheck(filename, n.source) then [CrossReport(n)] else [])
    else []
  }

  function Handler(filename: string, current: string): Node -> seq<Report>
  {
    n => ImportReports(filename, current, n)
  }

  /** Outside a feature directory no handler is registered. */
  function Lint(filename: string, root: Node): seq<Report>
  {
    match CurrentFeature(filename)
    case Some(current) => Collect(root, Handler(filename, current))
    case None => []
  }

  /** Only a file whose path has a `<sep>features<sep><name><sep>` directory gets reports. */
  lemma {:induction false} ReportsOnlyInFeatureFiles(filename: string, root: Node)
    ensures Lint(filename, root) != [] ==> exists i: nat, seg: string :: MarkerSegmentAt(filename, true, i, seg)
  {
    FirstMarkerNone(filename, true);
  }

  /** Every report is attached to an import declaration. */
  lemma ReportsAreOnImports(filename: string, root: Node, r: Report)
    ensures r in Lint(filename, root) ==> r.node.ImportDecl? && r == CrossReport(r.node)
  {
    var cf := CurrentFeature(filename);
    if cf.Some? {
      FlatMapMember(PreOrder(root), Handler(filename, cf.value), r);
    }
  }

  /** `parts.join("/")` begins with the first two parts when there are at least three. */
  lemma {:induction false} JoinThree(parts: seq<string>)
    requires |parts| >= 3
    ensures Join(parts, '/') == parts[0] + ['/'] + parts[1] + ['/'] + Join(parts[2..], '/')
  {
    var tail := parts[1..];
    assert tail[0] == parts[1] && tail[1..] == parts[2..];
    assert Join(tail, '/') == parts[1] + ['/'] + Join(parts[2..], '/');
    assert Join(parts, '/') == parts[0] + ['/'] + Join(tail, '/');
  }

  /** The sibling check fires only on a specifier that starts with `../../`, two steps on one line. */
  lemma SiblingNeedsTwoUpSteps(filename: string, source: string)
    ensures SiblingCheck(filename, source) ==> UpStepPair(source, 0, 3) && TwoUpSteps(source)
  {
    if SiblingCheck(filename, source) {
      var parts := Split(source, {'/'});
      SplitJoin(source, '/');
      JoinThree(parts);
      assert parts[0] == ".." && parts[1] == "..";
      assert source[0..3] == "../";
      assert source[3..6] == "../";
      assert LineFree(source, 3, 3);
      TwoUpStepsSpec(source);
    }
  }

  /**
   * A specifier with at most one `../` and no `/features/` is never reported: the features check
   * needs one or the other, and the sibling check needs two steps.
   */
  lemma SingleUpStepNeverReported(filename: string, current: string, source: string)
    requires !Contains(source, "/features/")
    requires forall a: nat, b: nat :: OccursAt(source, "../", a) && OccursAt(source, "../", b) ==> a == b
    ensures ImportReports(filename, current, ImportDecl(source)) == []
  {
    TwoUpStepsSpec(source);
    SiblingNeedsTwoUpSteps(filename, source);
  }

  /** The features check reports exactly a feature named by the leftmost `features<sep><name><sep>` other than ours. */
  lemma FeatureCheckNamesOtherFeature(current: string, source: string)
    ensures FeatureCheck(current, source)
        <==> (Contains(source, "/features/") || exists a: nat, b: nat :: UpStepPair(source, a, b))
             && exists i: nat, seg: string :: MarkerSegmentAt(source, false, i, seg) && NoMarkerBefore(source, false, i)
                                               && seg != current
  {
    TwoUpStepsSpec(source);
    var m := ImportedFeature(source);
    if m.Some? {
      FirstMarkerIsLeftmost(source, false, m.value);
      forall i: nat, seg: string | MarkerSegmentAt(source, false, i, seg) && NoMarkerBefore(source, false, i)
        ensures seg == m.value
      {
        FirstMarkerIsLeftmost(source, false, seg);
      }
    } else {
      FirstMarkerNone(source, false);
    }
  }

  /** `k` copies of the `..` part. */
  function Ups(k: nat): (r: seq<string>)
    ensures |r| == k && forall j :: 0 <= j < k ==> r[j] == ".."
  {
    if k == 0 then [] else [".."] + Ups(k - 1)
  }

  /** `k` steps up: `../` written `k` times. */
  function UpsPrefix(k: nat): string
  {
    if k == 0 then "" else "../" + UpsPrefix(k - 1)
  }

  lemma {:induction false} SplitUps(k: nat, t: string)
    ensures Split(UpsPrefix(k) + t, {'/'}) == Ups(k) + Split(t, {'/'})
  {
    if k > 0 {
      assert UpsPrefix(k) + t == ".." + ['/'] + (UpsPrefix(k - 1) + t);
      SplitCons("..", '/', UpsPrefix(k - 1) + t, {'/'});
      SplitUps(k - 1, t);
      assert Ups(k) + Split(t, {'/'}) == [".."] + (Ups(k - 1) + Split(t, {'/'}));
    } else {
      assert UpsPrefix(k) + t == t;
    }
  }

  /** A part followed by nothing or by `/` and more parts splits into that part first. */
  lemma SplitTarget(target: string, tail: string)
    requires '/' !in target
    requires tail == [] || tail[0] == '/'
    ensures var parts := Split(target + tail, {'/'});
      |parts| >= 1 && parts[0] == target
  {
    assert FreeOf(target, {'/'}) by {
      forall j | 0 <= j < |target|
        ensures target[j] !in {'/'}
      {
        assert target[j] in target;
      }
    }
    if tail == [] {
      assert target + tail == target;
      SplitFree(target, {'/'});
    } else {
      assert target + tail == target + ['/'] + tail[1..];
      SplitCons(target, '/', tail[1..], {'/'});
    }
  }

  /** `k` leading `..` parts followed by another part count as `k` steps up. */
  lemma ShapeLeadingUps(k: nat, target: string, more: seq<string>)
    requires target != ".."
    ensures var parts := Ups(k) + [target] + more;
      k < |parts| && parts[k] == target && LeadingUps(parts, 0) == k
  {
    var parts := Ups(k) + [target] + more;
    assert parts[k] == target;
    forall j | 0 <= j < k
      ensures parts[j] == ".."
    {
      assert parts[j] == Ups(k)[j];
    }
  }

  lemma SiblingCheckOfParts(filename: string, source: string, parts: seq<string>, ups: nat)
    requires StartsWith(source, "..") && Split(source, {'/'}) == parts
    requires ups < |parts| && LeadingUps(parts, 0) == ups
    ensures SiblingCheck(filename, source) <==> ups >= 3 && parts[ups] !in AllowedTargets && SiblingDiffers(filename, parts[ups])
  {
  }

  /** The parts of a climbing specifier: `k` times `..`, then `target`, then the parts of the tail. */
  lemma ShapeSplit(k: nat, target: string, tail: string)
    requires '/' !in target
    requires tail == [] || tail[0] == '/'
    ensures var parts := Split(UpsPrefix(k) + target + tail, {'/'});
      parts == Ups(k) + [target] + Split(target + tail, {'/'})[1..]
  {
    assert UpsPrefix(k) + target + tail == UpsPrefix(k) + (target + tail);
    SplitUps(k, target + tail);
    SplitTarget(target, tail);
    var more := Split(target + tail, {'/'})[1..];
    assert Split(target + tail, {'/'}) == [target] + more;
  }

  lemma ShapeStartsWithUp(k: nat, rest: string)
    requires k >= 1
    ensures StartsWith(UpsPrefix(k) + rest, "..")
  {
    var source := UpsPrefix(k) + rest;
    assert source == "../" + (UpsPrefix(k - 1) + rest);
    assert source[..2] == "..";
    StartsWithIsPrefix(source, "..");
  }

  /**
   * The sibling check by the shape of the specifier: `k` steps up, then `target`, then nothing or
   * `/` and more.  It fires exactly when `k` is at least three and `target` is neither allowed nor
   * the file's feature directory.
   */
  lemma SiblingCheckByShape(filename: string, k: nat, target: string, tail: string)
    requires k >= 1 && target != ".." && '/' !in target
    requires tail == [] || tail[0] == '/'
    ensures SiblingCheck(filename, UpsPrefix(k) + target + tail)
        <==> k >= 3 && target !in AllowedTargets && SiblingDiffers(filename, target)
  {
    var more := Split(target + tail, {'/'})[1..];
    ShapeSplit(k, target, tail);
    ShapeLeadingUps(k, target, more);
    ShapeStartsWithUp(k, target + tail);
    assert UpsPrefix(k) + target + tail == UpsPrefix(k) + (target + tail);
    SiblingCheckOfParts(filename, UpsPrefix(k) + target + tail, Ups(k) + [target] + more, k);
  }

  /**
   * A specifier made only of `k` steps up, `../..` and the like, leaves no part after the steps, so
   * the sibling check never fires on it, however far it climbs.
   */
  lemma BareClimbNeverSibling(filename: string, k: nat)
    requires k >= 1
    ensures !SiblingCheck(filename, UpsPrefix(k - 1) + "..")
  {
    var parts := Ups(k - 1) + [".."];
    SplitUps(k - 1, "..");
    assert FreeOf("..", {'/'});
    SplitFree("..", {'/'});
    assert Split(UpsPrefix(k - 1) + "..", {'/'}) == parts;
    assert forall j :: 0 <= j < |parts| ==> parts[j] == "..";
    assert LeadingUps(parts, 0) == |parts|;
  }

  /** The pattern, written out as a concatenation, occurs where `pre` ends. */
  lemma MarkerFromConcat(s: string, lead: bool, pre: string, sep: char, seg: string, sep': char, post: string)
    requires s == pre + "features" + [sep] + seg + [sep'] + post
    requires lead ==> |pre| >= 1 && IsPathSep(pre[|pre| - 1])
    requires IsPathSep(sep) && IsPathSep(sep') && seg != [] && '/' !in seg && '\\' !in seg
    ensures |pre| >= Lead(lead) && MarkerSegmentAt(s, lead, |pre| - Lead(lead), seg)
    ensures s[..|pre|] == pre
  {
    var f := |pre|;
    assert s[f..f + 8] == "features";
    assert s[f + 8] == sep;
    assert s[f + 9..f + 9 + |seg|] == seg;
    assert s[f + 9 + |seg|] == sep';
    if lead {
      assert s[f - 1] == pre[|pre| - 1];
    }
    forall j | 0 <= j < |seg|
      ensures seg[j] !in PathSeps
    {
      assert seg[j] in seg;
    }
  }

  /** No match starts before `i` when no `f` comes before the pattern's `features`. */
  lemma NoMatchBefore(s: string, lead: bool, pre: string, i: nat)
    requires |pre| <= |s| && s[..|pre|] == pre && 'f' !in pre && i + Lead(lead) == |pre|
    ensures forall k: nat :: k < i ==> !MatchAt(s, lead, k)
  {
    forall k: nat | k < i
      ensures !MatchAt(s, lead, k)
    {
      assert s[k + Lead(lead)] == pre[k + Lead(lead)];
    }
  }

  /** An occurrence with no match before it is the one `FirstMarker` finds. */
  lemma FirstMarkerFrom(s: string, lead: bool, i: nat, seg: string)
    requires MarkerSegmentAt(s, lead, i, seg)
    requires forall k: nat :: k < i ==> !MatchAt(s, lead, k)
    ensures FirstMarker(s, lead) == Some(seg)
  {
    MarkerIsMatchAt(s, lead, i, seg);
    var r := FirstMarkerIndex(s, lead, 0);
    assert r == Some(i);
  }

  /**
   * The leftmost match is found where the pattern occurs, when no `f` comes before it: `pre` ends in
   * the leading separator if the pattern has one.
   */
  lemma FirstMarkerAt(s: string, lead: bool, pre: string, sep: char, seg: string, sep': char, post: string)
    requires s == pre + "features" + [sep] + seg + [sep'] + post
    requires lead ==> |pre| >= 1 && IsPathSep(pre[|pre| - 1])
    requires IsPathSep(sep) && IsPathSep(sep') && seg != [] && '/' !in seg && '\\' !in seg
    requires 'f' !in pre
    ensures FirstMarker(s, lead) == Some(seg)
  {
    MarkerFromConcat(s, lead, pre, sep, seg, sep', post);
    var i := |pre| - Lead(lead);
    NoMatchBefore(s, lead, pre, i);
    FirstMarkerFrom(s, lead, i, seg);
  }

  /** Without `features` anywhere there is no feature to find. */
  lemma MarkerNeedsFeatures(s: string, lead: bool)
    ensures FirstMarker(s, lead).Some? ==> Contains(s, "features")
  {
    var r := FirstMarkerIndex(s, lead, 0);
    if r.Some? {
      ContainsMatch(s, "features", r.value + Lead(lead));
    }
  }

  /** A specifier without `features` in it never trips the features check. */
  lemma NoFeaturesNoFeatureCheck(current: string, source: string)
    requires !Contains(source, "features")
    ensures !FeatureCheck(current, source)
  {
    MarkerNeedsFeatures(source, false);
  }

  /** In a feature file, an import both checks flag is reported twice. */
  lemma BothChecksReportTwice(filename: string, current: string, n: Node)
    requires CurrentFeature(filename) == Some(current) && n.ImportDecl?
    requires FeatureCheck(current, n.source) && SiblingCheck(filename, n.source)
    ensures Lint(filename, n) == [CrossReport(n), CrossReport(n)]
  {
    CollectLeaf(n, Handler(filename, current));
  }

  /** A part without a separator. */
  lemma FreePart(p: string)
    requires '/' !in p && '\\' !in p
    ensures FreeOf(p, PathSeps)
  {
    forall j | 0 <= j < |p|
      ensures p[j] !in PathSeps
    {
      assert p[j] in p;
    }
  }

  /** The example file `src/features/user/command/create/handler.ts` belongs to the `user` feature. */
  lemma ExampleFileFeature(file: string)
    requires file == "src" + "/" + "features" + "/" + "user" + "/" + "command/create/handler.ts"
    ensures CurrentFeature(file) == Some("user")
  {
    FirstMarkerAt(file, true, "src" + "/", '/', "user", '/', "command/create/handler.ts");
  }

  /** The first three parts of a path whose first three parts are free of separators. */
  lemma SplitThree(a: string, b: string, c: string, rest: string)
    requires FreeOf(a, PathSeps) && FreeOf(b, PathSeps) && FreeOf(c, PathSeps)
    ensures var parts := Split(a + "/" + b + "/" + c + "/" + rest, PathSeps);
      |parts| >= 3 && parts[0] == a && parts[1] == b && parts[2] == c
  {
    SplitCons(c, '/', rest, PathSeps);
    assert a + "/" + b + "/" + c + "/" + rest == a + ['/'] + (b + ['/'] + (c + ['/'] + rest));
    SplitCons(b, '/', c + ['/'] + rest, PathSeps);
    SplitCons(a, '/', b + ['/'] + (c + ['/'] + rest), PathSeps);
  }

  /** For a path `a/features/c/...` whose first part is not `features`, the sibling part is `c`. */
  lemma SiblingDiffersAt(file: string, a: string, c: string, rest: string, target: string)
    requires file == a + "/" + "features" + "/" + c + "/" + rest
    requires FreeOf(a, PathSeps) && FreeOf(c, PathSeps) && a != "features"
    ensures SiblingDiffers(file, target) <==> target != c
  {
    FreePart("features");
    SplitThree(a, "features", c, rest);
    var parts := Split(file, PathSeps);
    assert parts[0] != "features" && parts[1] == "features";
    assert IndexOf(parts, "features") == 1;
  }

  /** In the example file the sibling check compares against `user`, the part after `features`. */
  lemma ExampleFileSibling(file: string, target: string)
    requires file == "src" + "/" + "features" + "/" + "user" + "/" + "command/create/handler.ts"
    ensures SiblingDiffers(file, target) <==> target != "user"
  {
    FreePart("src");
    FreePart("user");
    SiblingDiffersAt(file, "src", "user", "command/create/handler.ts", target);
  }

  lemma UpsPrefixTwo()
    ensures UpsPrefix(2) == "../../"
  {}

  lemma UpsPrefixThree()
    ensures UpsPrefix(3) == "../../../"
  {}

  /** `../../../features/other/x` contains `/features/` and names `features/other/`. */
  lemma ClimbIntoOtherFeatureCheck(source: string)
    requires source == "../../.." + "/" + "features" + "/other/x"
    ensures FeatureCheck("user", source)
  {
    ContainsConcat("../../..", "/features/", "other/x");
    assert source == "../../.." + "/features/" + "other/x";
    FirstMarkerAt(source, false, "../../../", '/', "other", '/', "x");
  }

  /**
   * From the example file, three steps up into any directory that is neither allowed nor `user`
   * trips the sibling check.
   */
  lemma ClimbThreeIntoOtherDirectory(file: string, source: string, target: string, tail: string)
    requires file == "src" + "/" + "features" + "/" + "user" + "/" + "command/create/handler.ts"
    requires source == "../../.." + "/" + target + tail
    requires target != ".." && '/' !in target && target !in AllowedTargets && target != "user"
    requires tail == [] || tail[0] == '/'
    ensures SiblingCheck(file, source)
  {
    UpsPrefixThree();
    assert source == UpsPrefix(3) + target + tail;
    SiblingCheckByShape(file, 3, target, tail);
    ExampleFileSibling(file, target);
  }

  /** `../../..` climbs three steps but names no directory after them: the sibling check stays silent. */
  lemma ClimbThreeWithoutTarget(file: string)
    ensures !SiblingCheck(file, "../../..")
  {
    UpsPrefixTwo();
    assert UpsPrefix(3 - 1) + ".." == "../../..";
    BareClimbNeverSibling(file, 3);
  }

  /**
   * `../../../` ends with a separator, so an empty part follows the three steps; the empty name is
   * not an allowed directory and is not `user`, so the sibling check fires.
   */
  lemma ClimbThreeTrailingSeparator(file: string, source: string)
    requires file == "src" + "/" + "features" + "/" + "user" + "/" + "command/create/handler.ts"
    requires source == "../../.." + "/"
    ensures SiblingCheck(file, source)
  {
    assert source == "../../.." + "/" + "" + [];
    ClimbThreeIntoOtherDirectory(file, source, "", []);
  }

  /** `../../../features/other/x` climbs three steps and names `features/other/`: both checks fire. */
  lemma ClimbIntoOtherFeature(file: string, source: string)
    requires file == "src" + "/" + "features" + "/" + "user" + "/" + "command/create/handler.ts"
    requires source == "../../.." + "/" + "features" + "/other/x"
    ensures FeatureCheck("user", source) && SiblingCheck(file, source)
  {
    ClimbIntoOtherFeatureCheck(source);
    ClimbThreeIntoOtherDirectory(file, source, "features", "/other/x");
  }

  /** So the one import is reported twice. */
  lemma ClimbIntoOtherFeatureReportedTwice(file: string, n: Node)
    requires file == "src" + "/" + "features" + "/" + "user" + "/" + "command/create/handler.ts"
    requires n == ImportDecl("../../.." + "/" + "features" + "/other/x")
    ensures Lint(file, n) == [CrossReport(n), CrossReport(n)]
  {
    ExampleFileFeature(file);
    ClimbIntoOtherFeature(file, n.source);
    BothChecksReportTwice(file, "user", n);
  }

  /** A specifier without an `f` cannot name a feature. */
  lemma NoLetterFNoFeatureCheck(current: string, source: string)
    requires 'f' !in source
    ensures !FeatureCheck(current, source)
  {
    MissingCharNotContained(source, "features", 0);
    NoFeaturesNoFeatureCheck(current, source);
  }

  /** `../../../product/utils` names no `features` directory; only the sibling check fires. */
  lemma ClimbIntoSiblingFeature(file: string, source: string)
    requires file == "src" + "/" + "features" + "/" + "user" + "/" + "command/create/handler.ts"
    requires source == "../../.." + "/" + "product" + "/utils"
    ensures !FeatureCheck("user", source) && SiblingCheck(file, source)
  {
    NoLetterFNoFeatureCheck("user", source);
    ClimbThreeIntoOtherDirectory(file, source, "product", "/utils");
  }

  /** Climbing three steps back into the file's own feature directory does not trip the sibling check. */
  lemma ClimbIntoOwnSiblingCheck(file: string, source: string)
    requires file == "src" + "/" + "features" + "/" + "user" + "/" + "command/create/handler.ts"
    requires source == "../../../user/query/get-user"
    ensures !SiblingCheck(file, source)
  {
    UpsPrefixThree();
    assert source == UpsPrefix(3) + "user" + "/query/get-user";
    SiblingCheckByShape(file, 3, "user", "/query/get-user");
    ExampleFileSibling(file, "user");
  }

  /** Climbing back into the file's own feature is quiet. */
  lemma ClimbIntoOwnFeature(file: string, source: string)
    requires file == "src" + "/" + "features" + "/" + "user" + "/" + "command/create/handler.ts"
    requires source == "../../../user/query/get-user"
    ensures !FeatureCheck("user", source) && !SiblingCheck(file, source)
  {
    NoLetterFNoFeatureCheck("user", source);
    ClimbIntoOwnSiblingCheck(file, source);
  }

  /** Climbing three steps into an allowed directory does not trip the sibling check. */
  lemma ClimbIntoSharedSiblingCheck(file: string, source: string)
    requires source == "../../../utils/date"
    ensures !SiblingCheck(file, source)
  {
    UpsPrefixThree();
    assert source == UpsPrefix(3) + "utils" + "/date";
    SiblingCheckByShape(file, 3, "utils", "/date");
  }

  /** Climbing into an allowed directory is quiet. */
  lemma ClimbIntoSharedDirectory(file: string, source: string)
    requires file == "src" + "/" + "features" + "/" + "user" + "/" + "command/create/handler.ts"
    requires source == "../../../utils/date"
    ensures !FeatureCheck("user", source) && !SiblingCheck(file, source)
  {
    NoLetterFNoFeatureCheck("user", source);
    ClimbIntoSharedSiblingCheck(file, source);
  }

  /** Two steps up are below the sibling check's threshold, whatever the file. */
  lemma TwoStepsSiblingCheck(file: string, source: string)
    requires source == "../../product/utils"
    ensures !SiblingCheck(file, source)
  {
    UpsPrefixTwo();
    assert source == UpsPrefix(2) + "product" + "/utils";
    SiblingCheckByShape(file, 2, "product", "/utils");
  }

  /** Two steps up into another directory are quiet. */
  lemma TwoStepsQuiet(file: string, source: string)
    requires file == "src" + "/" + "features" + "/" + "user" + "/" + "command/create/handler.ts"
    requires source == "../../product/utils"
    ensures !FeatureCheck("user", source) && !SiblingCheck(file, source)
  {
    NoLetterFNoFeatureCheck("user", source);
    TwoStepsSiblingCheck(file, source);
  }

  /** An alias import of another feature is reported by the features check alone. */
  lemma AliasImportOfOtherFeature(file: string, source: string)
    requires file == "src" + "/" + "features" + "/" + "user" + "/" + "command/create/handler.ts"
    requires source == "@/features/product/api"
    ensures FeatureCheck("user", source) && !SiblingCheck(file, source)
  {
    ContainsConcat("@", "/features/", "product/api");
    assert source == "@" + "/features/" + "product/api";
    FirstMarkerAt(source, false, "@/", '/', "product", '/', "api");
    assert source[0] == '@';
  }

  /** An alias import of the file's own feature is quiet. */
  lemma AliasImportOfOwnFeature(file: string, source: string)
    requires file == "src" + "/" + "features" + "/" + "user" + "/" + "command/create/handler.ts"
    requires source == "@/features/user/api"
    ensures !FeatureCheck("user", source) && !SiblingCheck(file, source)
  {
    FirstMarkerAt(source, false, "@/", '/', "user", '/', "api");
    assert source[0] == '@';
  }
}
