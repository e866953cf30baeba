/**
 * The N+1 query rule (src/rules/no-n-plus-one-query.js): a call classified as a repository call is
 * reported when it runs inside a loop, or inside an iteration callback passed under `Promise.all`.
 *
 * The rule keeps two pieces of state through the walk: `loopDepth`, raised by loop statements and by
 * iteration callbacks that are not under `Promise.all`, and the single flag
 * `inPromiseAllCallback`, set by iteration callbacks that are.  Exit handlers re-evaluate the same
 * test on the same node and ancestors as the enter handler did.
 */
module NPlusOneQuery {
  import opened Wrappers
  import opened Strings
  import opened Estree
  import opened Linter

  const LoopMessage := "noNPlusOneInLoop"
  const PromiseAllMessage := "noNPlusOneInPromiseAll"

  /** The method-name patterns: `get` exactly, or one of six prefixes, all ignoring case. */
  predicate IsRepositoryVerb(name: string)
  {
    var l := ToLower(name);
    || l == "get"
    || StartsWith(l, "find")
    || StartsWith(l, "search")
    || StartsWith(l, "list")
    || StartsWith(l, "fetch")
    || StartsWith(l, "load")
    || StartsWith(l, "query")
  }

  /**
   * `isRepositoryMethod(callee)`: the member name of a repository call, possibly empty, or `None`.
   * The receiver tier looks at the name of `callee.obj`; the verb tier at the member name and at
   * the accessor call the receiver is.
   */
  function RepositoryMethod(callee: Node): Option<string>
  {
    if callee.MemberExpr? then
      var objectName := ToLower(NameOrEmpty(callee.obj));
      var propertyName := NameOrEmpty(callee.property);
      if Contains(objectName, "repo") || Contains(objectName, "repository") then
        Some(propertyName)
      else if && IsRepositoryVerb(propertyName)
              && callee.obj.CallExpr?
              && callee.obj.callee.MemberExpr?
              && Contains(ToLower(NameOrEmpty(callee.obj.callee.property)), "repository") then
        Some(propertyName)
      else
        None
    else
      None
  }

  /** The method name `checkCallExpression` reports for a call, when it reports one at all. */
  function ClassifyCall(call: Node): Option<string>
  {
    if call.CallExpr? then
      match RepositoryMethod(call.callee)
      case Some(m) => if m != "" then Some(m) else None
      case None => None
    else
      None
  }

  /** Reference definition of the receiver tier: `o.m(...)` with `o` an identifier naming a repository. */
  predicate ReceiverTier(callee: Node)
  {
    callee.MemberExpr? && callee.obj.Identifier? && Contains(ToLower(callee.obj.name), "repo")
  }

  /** Reference definition of the verb tier: `x.getFooRepository(...).find(...)`. */
  predicate VerbTier(callee: Node)
  {
    && callee.MemberExpr?
    && IsRepositoryVerb(NameOrEmpty(callee.property))
    && callee.obj.CallExpr?
    && callee.obj.callee.MemberExpr?
    && callee.obj.callee.property.Identifier?
    && Contains(ToLower(callee.obj.callee.property.name), "repository")
  }

  lemma RepositoryContainsRepo(s: string)
    ensures Contains(s, "repository") ==> Contains(s, "repo")
  {
    if Contains(s, "repository") {
      ContainsIsSubstring(s, "repository");
      var j: nat :| OccursAt(s, "repository", j);
      assert s[j..j + 4] == s[j..j + 10][..4];
      ContainsAt(s, "repo", j);
    }
  }

  lemma EmptyHasNoRepo(p: string)
    requires |p| > 0
    ensures !Contains(ToLower(""), p)
  {
    ContainsIsSubstring(ToLower(""), p);
  }

  /**
   * A call is classified exactly when one of the two tiers matches and the member has a non-empty
   * name, and it is then classified with that name.
   */
  lemma ClassificationByTiers(call: Node)
    ensures ClassifyCall(call).Some?
      <==> call.CallExpr? && (ReceiverTier(call.callee) || VerbTier(call.callee))
           && NameOrEmpty(call.callee.property) != ""
    ensures ClassifyCall(call).Some? ==> ClassifyCall(call).value == call.callee.property.name
  {
    if call.CallExpr? && call.callee.MemberExpr? {
      var callee := call.callee;
      RepositoryContainsRepo(ToLower(NameOrEmpty(callee.obj)));
      EmptyHasNoRepo("repo");
      EmptyHasNoRepo("repository");
      if callee.obj.CallExpr? && callee.obj.callee.MemberExpr? {
        EmptyHasNoRepo("repository");
      }
    }
  }

  /** The receiver tier alone classifies: `orderRepository.findAll(...)` gives `findAll`. */
  lemma ReceiverTierClassifies(receiver: string, member: string, args: seq<Node>)
    requires Contains(ToLower(receiver), "repo") && member != ""
    ensures ClassifyCall(CallExpr(MemberExpr(Identifier(receiver), Identifier(member)), args)) == Some(member)
  {
    ClassificationByTiers(CallExpr(MemberExpr(Identifier(receiver), Identifier(member)), args));
  }

  /** `orderRepository.findAll()` is a repository call by its receiver. */
  lemma ReceiverTierExample()
    ensures ClassifyCall(CallExpr(MemberExpr(Identifier("orderRepository"), Identifier("findAll")), []))
            == Some("findAll")
  {
    assert Contains(ToLower("orderRepository"), "repo");
  }

  lemma AccessorNamesRepository()
    ensures Contains(ToLower("getUserRepository"), "repository")
  {
    assert ToLower("getUserRepository") == "getuserrepository";
    ContainsMatch("getuserrepository", "repository", 7);
  }

  /** `container.getUserRepository().findById()` is a repository call by its verb and accessor. */
  lemma VerbTierExample(call: Node)
    requires call == CallExpr(MemberExpr(
              CallExpr(MemberExpr(Identifier("container"), Identifier("getUserRepository")), []),
              Identifier("findById")), [])
    ensures ClassifyCall(call) == Some("findById")
  {
    EmptyHasNoRepo("repo");
    EmptyHasNoRepo("repository");
    assert ToLower("findById") == "findbyid";
    assert IsRepositoryVerb("findById");
    AccessorNamesRepository();
  }

  /** A receiver without "repo" in its name: `mathUtils.findMax()`. */
  lemma PlainReceiverExample()
    ensures ClassifyCall(CallExpr(MemberExpr(Identifier("mathUtils"), Identifier("findMax")), [])) == None
  {
    assert ToLower("mathUtils") == "mathutils";
    MissingCharNotContained("mathutils", "repo", 0);
  }

  /** A non-verb behind a repository accessor: `container.getUserRepository().getUser()`. */
  lemma NonVerbExample()
    ensures ClassifyCall(CallExpr(MemberExpr(
              CallExpr(MemberExpr(Identifier("container"), Identifier("getUserRepository")), []),
              Identifier("getUser")), [])) == None
  {
    assert ToLower("container") == "container";
    MissingCharNotContained("container", "repo", 2);
    assert !IsRepositoryVerb("getUser");
  }

  /**
   * Not repository calls: a receiver that is not a plain identifier (`this.userRepository.findById()`),
   * a callee that is not a member, and a member without a name.
   */
  lemma OtherShapesExample()
    ensures ClassifyCall(CallExpr(MemberExpr(
              MemberExpr(ThisExpr, Identifier("userRepository")), Identifier("findById")), [])) == None
    ensures ClassifyCall(CallExpr(Identifier("findUsers"), [])) == None
    ensures ClassifyCall(CallExpr(MemberExpr(Identifier("repo"), StringLiteral("find")), [])) == None
  {
    assert !Contains(ToLower(""), "repo");
  }

  /** The array methods whose callbacks count as iterations. */
  const IterationMethods: set<string> := {"forEach", "map", "filter", "reduce", "some", "every", "flatMap"}

  /**
   * The selectors `CallExpression > ArrowFunctionExpression` and `CallExpression > FunctionExpression`
   * with the handlers' test: a function value whose parent calls a member named after an iteration
   * method.
   */
  predicate IsIterationCallback(n: Node, anc: seq<Node>)
  {
    && IsFunctionValue(n)
    && |anc| > 0
    && anc[|anc| - 1].CallExpr?
    && anc[|anc| - 1].callee.MemberExpr?
    && NameOf(anc[|anc| - 1].callee.property).Some?
    && NameOf(anc[|anc| - 1].callee.property).value in IterationMethods
  }

  /** `Promise.all(...)` */
  predicate IsPromiseAllCall(n: Node)
  {
    && n.CallExpr?
    && n.callee.MemberExpr?
    && NameOf(n.callee.obj) == Some("Promise")
    && NameOf(n.callee.property) == Some("all")
  }

  /**
   * `isPromiseAllArgument` for a node whose ancestors are `anc[..k]`: climbs from the parent
   * `anc[k - 1]` up to the root, across function boundaries.
   */
  predicate PromiseAllAbove(anc: seq<Node>, k: nat)
    requires k <= |anc|
  {
    k > 0 && (IsPromiseAllCall(anc[k - 1]) || PromiseAllAbove(anc, k - 1))
  }

  /** The climb finds `Promise.all(...)` exactly when some ancestor, however far up, is one. */
  lemma {:induction false} PromiseAllAboveAnyAncestor(anc: seq<Node>, k: nat)
    requires k <= |anc|
    ensures PromiseAllAbove(anc, k) <==> exists i :: 0 <= i < k && IsPromiseAllCall(anc[i])
  {
    if k > 0 {
      PromiseAllAboveAnyAncestor(anc, k - 1);
    }
  }

  /** An iteration callback whose call has `Promise.all(...)` among its ancestors. */
  predicate IsPromiseAllCallback(n: Node, anc: seq<Node>)
  {
    IsIterationCallback(n, anc) && PromiseAllAbove(anc, |anc| - 1)
  }

  datatype ScopeState = ScopeState(loopDepth: int, inPromiseAllCallback: bool)

  const Initial := ScopeState(0, false)

  /**
   * `checkCallExpression`: a classified call is reported once, with the loop message when inside a
   * loop scope, else with the `Promise.all` message when the flag is set.
   */
  function CheckCall(call: Node, st: ScopeState): (r: seq<Report>)
    ensures |r| <= 1
    ensures |r| == 1 <==> ClassifyCall(call).Some? && (st.loopDepth > 0 || st.inPromiseAllCallback)
    ensures |r| == 1 ==> r[0].node == call && r[0].data == map["method" := ClassifyCall(call).value]
    ensures |r| == 1 ==> (r[0].messageId == LoopMessage <==> st.loopDepth > 0)
    ensures |r| == 1 ==> (r[0].messageId == PromiseAllMessage <==> st.loopDepth <= 0)
  {
    match ClassifyCall(call)
    case None => []
    case Some(m) =>
      if st.loopDepth > 0 then [Report(LoopMessage, call, map["method" := m])]
      else if st.inPromiseAllCallback then [Report(PromiseAllMessage, call, map["method" := m])]
      else []
  }

  /** The enter handlers: loops, iteration callbacks, calls and `await` of a call. */
  function Enter(n: Node, anc: seq<Node>, st: ScopeState): Step<ScopeState>
  {
    if n.LoopStmt? then
      Step(st.(loopDepth := st.loopDepth + 1), [])
    else if IsIterationCallback(n, anc) then
      if PromiseAllAbove(anc, |anc| - 1) then Step(st.(inPromiseAllCallback := true), [])
      else Step(st.(loopDepth := st.loopDepth + 1), [])
    else if n.CallExpr? then
      Step(st, CheckCall(n, st))
    else if n.AwaitExpr? && n.argument.CallExpr? then
      Step(st, CheckCall(n.argument, st))
    else
      Step(st, [])
  }

  /** The `:exit` handlers: the same tests as `Enter`, undoing its change. */
  function Exit(n: Node, anc: seq<Node>, st: ScopeState): ScopeState
  {
    if n.LoopStmt? then
      st.(loopDepth := st.loopDepth - 1)
    else if IsIterationCallback(n, anc) then
      if PromiseAllAbove(anc, |anc| - 1) then st.(inPromiseAllCallback := false)
      else st.(loopDepth := st.loopDepth - 1)
    else
      st
  }

  /** The reports of the rule on a whole file. */
  function Lint(root: Node): seq<Report>
  {
    Walk(root, [], Initial, Enter, Exit).reports
  }

  /** Walking any subtree leaves `loopDepth` as it found it. */
  lemma {:induction false} LoopDepthRestored(n: Node, anc: seq<Node>, st: ScopeState)
    ensures Walk(n, anc, st, Enter, Exit).state.loopDepth == st.loopDepth
    decreases n, 1
  {
    LoopDepthRestoredChildren(n, Children(n), 0, anc + [n], Enter(n, anc, st).state);
  }

  lemma {:induction false} LoopDepthRestoredChildren(parent: Node, ns: seq<Node>, i: nat, anc: seq<Node>, st: ScopeState)
    requires i <= |ns|
    requires forall c :: c in ns ==> c < parent
    ensures WalkChildren(parent, ns, i, anc, st, Enter, Exit).state.loopDepth == st.loopDepth
    decreases parent, 0, |ns| - i
  {
    if i < |ns| {
      assert ns[i] in ns;
      LoopDepthRestored(ns[i], anc, st);
      LoopDepthRestoredChildren(parent, ns, i + 1, anc, Walk(ns[i], anc, st, Enter, Exit).state);
    }
  }

  /**
   * The flag is a single boolean, not a stack: after walking a subtree it is false if the subtree
   * holds any `Promise.all` callback, and otherwise as it was.
   */
  lemma {:induction false} FlagAfterWalk(n: Node, anc: seq<Node>, st: ScopeState)
    ensures Walk(n, anc, st, Enter, Exit).state.inPromiseAllCallback
            == (st.inPromiseAllCallback && !SomeNode(n, anc, IsPromiseAllCallback))
    decreases n, 1
  {
    FlagAfterWalkChildren(n, Children(n), 0, anc + [n], Enter(n, anc, st).state);
  }

  lemma {:induction false} FlagAfterWalkChildren(parent: Node, ns: seq<Node>, i: nat, anc: seq<Node>, st: ScopeState)
    requires i <= |ns|
    requires forall c :: c in ns ==> c < parent
    ensures WalkChildren(parent, ns, i, anc, st, Enter, Exit).state.inPromiseAllCallback
            == (st.inPromiseAllCallback && !SomeChild(parent, ns, i, anc, IsPromiseAllCallback))
    decreases parent, 0, |ns| - i
  {
    if i < |ns| {
      assert ns[i] in ns;
      FlagAfterWalk(ns[i], anc, st);
      FlagAfterWalkChildren(parent, ns, i + 1, anc, Walk(ns[i], anc, st, Enter, Exit).state);
    }
  }

  /** A walk that starts with the flag clear ends in the state it started in; so does every file. */
  lemma WalkRestoresState(n: Node, anc: seq<Node>, st: ScopeState)
    requires !st.inPromiseAllCallback
    ensures Walk(n, anc, st, Enter, Exit).state == st
  {
    LoopDepthRestored(n, anc, st);
    FlagAfterWalk(n, anc, st);
  }

  /** Every report is about a classified call and carries its method name. */
  ghost predicate IsCallReport(r: Report)
  {
    && ClassifyCall(r.node).Some?
    && r.data == map["method" := ClassifyCall(r.node).value]
    && (r.messageId == LoopMessage || r.messageId == PromiseAllMessage)
  }

  lemma {:induction false} ReportsAreClassifiedCalls(n: Node, anc: seq<Node>, st: ScopeState)
    ensures forall r :: r in Walk(n, anc, st, Enter, Exit).reports ==> IsCallReport(r)
    decreases n, 1
  {
    ReportsAreClassifiedCallsChildren(n, Children(n), 0, anc + [n], Enter(n, anc, st).state);
  }

  lemma {:induction false} ReportsAreClassifiedCallsChildren(parent: Node, ns: seq<Node>, i: nat, anc: seq<Node>, st: ScopeState)
    requires i <= |ns|
    requires forall c :: c in ns ==> c < parent
    ensures forall r :: r in WalkChildren(parent, ns, i, anc, st, Enter, Exit).reports ==> IsCallReport(r)
    decreases parent, 0, |ns| - i
  {
    if i < |ns| {
      assert ns[i] in ns;
      ReportsAreClassifiedCalls(ns[i], anc, st);
      ReportsAreClassifiedCallsChildren(parent, ns, i + 1, anc, Walk(ns[i], anc, st, Enter, Exit).state);
    }
  }

  /** A node that opens a scope: a loop statement or an iteration callback. */
  predicate OpensScope(n: Node, anc: seq<Node>)
  {
    n.LoopStmt? || IsIterationCallback(n, anc)
  }

  /** Code with no loop and no iteration callback is never reported when walked outside any scope. */
  lemma {:induction false} NoScopeNoReports(n: Node, anc: seq<Node>, st: ScopeState)
    requires st.loopDepth <= 0 && !st.inPromiseAllCallback
    requires !SomeNode(n, anc, OpensScope)
    ensures Walk(n, anc, st, Enter, Exit).reports == []
    decreases n, 1
  {
    NoScopeNoReportsChildren(n, Children(n), 0, anc + [n], Enter(n, anc, st).state);
  }

  lemma {:induction false} NoScopeNoReportsChildren(parent: Node, ns: seq<Node>, i: nat, anc: seq<Node>, st: ScopeState)
    requires i <= |ns|
    requires forall c :: c in ns ==> c < parent
    requires st.loopDepth <= 0 && !st.inPromiseAllCallback
    requires !SomeChild(parent, ns, i, anc, OpensScope)
    ensures WalkChildren(parent, ns, i, anc, st, Enter, Exit).reports == []
    decreases parent, 0, |ns| - i
  {
    if i < |ns| {
      var c := ns[i];
      assert c in ns;
      assert !SomeNode(c, anc, OpensScope) && !SomeChild(parent, ns, i + 1, anc, OpensScope);
      NoScopeNoReports(c, anc, st);
      WalkRestoresState(c, anc, st);
      NoScopeNoReportsChildren(parent, ns, i + 1, anc, st);
    }
  }

  /**
   * What the rule reports at a node once it is inside a loop scope: a classified call, or the call
   * an `await` holds, with the loop message.
   */
  function LoopReports(n: Node): seq<Report>
  {
    if n.CallExpr? then CheckCall(n, ScopeState(1, false))
    else if n.AwaitExpr? && n.argument.CallExpr? then CheckCall(n.argument, ScopeState(1, false))
    else []
  }

  /** Inside a loop scope the flag does not matter: every call gets the loop verdict. */
  lemma InLoopVerdict(call: Node, st: ScopeState)
    requires st.loopDepth > 0
    ensures CheckCall(call, st) == CheckCall(call, ScopeState(1, false))
  {
  }

  /**
   * Inside a loop scope a subtree reports exactly its classified calls and awaited calls, in
   * visiting order, each with the loop message, whatever the flag and whatever scopes it opens.
   */
  lemma {:induction false} InsideLoopCollects(n: Node, anc: seq<Node>, st: ScopeState)
    requires st.loopDepth > 0
    ensures Walk(n, anc, st, Enter, Exit).reports == Collect(n, LoopReports)
    decreases n, 1
  {
    var e := Enter(n, anc, st);
    if n.CallExpr? {
      InLoopVerdict(n, st);
    } else if n.AwaitExpr? && n.argument.CallExpr? {
      InLoopVerdict(n.argument, st);
    }
    assert e.reports == LoopReports(n);
    InsideLoopCollectsChildren(n, Children(n), 0, anc + [n], e.state);
    FlatMapAppend([n], PreOrderChildren(n, Children(n), 0), LoopReports);
    assert FlatMap([n], LoopReports) == LoopReports(n) + FlatMap([], LoopReports);
  }

  lemma {:induction false} InsideLoopCollectsChildren(parent: Node, ns: seq<Node>, i: nat, anc: seq<Node>, st: ScopeState)
    requires i <= |ns|
    requires forall c :: c in ns ==> c < parent
    requires st.loopDepth > 0
    ensures WalkChildren(parent, ns, i, anc, st, Enter, Exit).reports == FlatMap(PreOrderChildren(parent, ns, i), LoopReports)
    decreases parent, 0, |ns| - i
  {
    if i < |ns| {
      var c := ns[i];
      assert c in ns;
      var first := Walk(c, anc, st, Enter, Exit);
      InsideLoopCollects(c, anc, st);
      LoopDepthRestored(c, anc, st);
      InsideLoopCollectsChildren(parent, ns, i + 1, anc, first.state);
      assert WalkChildren(parent, ns, i, anc, st, Enter, Exit).reports
          == first.reports + WalkChildren(parent, ns, i + 1, anc, first.state, Enter, Exit).reports;
      assert PreOrderChildren(parent, ns, i) == PreOrder(c) + PreOrderChildren(parent, ns, i + 1);
      FlatMapAppend(PreOrder(c), PreOrderChildren(parent, ns, i + 1), LoopReports);
    }
  }

  /**
   * A loop statement, or an iteration callback not under `Promise.all`, entered outside any loop
   * reports every classified call and awaited call below it with the loop message, whether the flag
   * is set or not.
   */
  lemma LoopScopeCollects(n: Node, anc: seq<Node>, st: ScopeState)
    requires st.loopDepth >= 0
    requires n.LoopStmt? || (IsIterationCallback(n, anc) && !PromiseAllAbove(anc, |anc| - 1))
    ensures Walk(n, anc, st, Enter, Exit).reports == Collect(n, LoopReports)
  {
    InsideLoopCollectsChildren(n, Children(n), 0, anc + [n], Enter(n, anc, st).state);
    FlatMapAppend([n], PreOrderChildren(n, Children(n), 0), LoopReports);
    assert FlatMap([n], LoopReports) == LoopReports(n) + FlatMap([], LoopReports);
  }

  /**
   * What the rule reports at a node inside a `Promise.all` callback and outside every loop: a
   * classified call, or the call an `await` holds, with the `Promise.all` message.
   */
  function PromiseAllReports(n: Node): seq<Report>
  {
    if n.CallExpr? then CheckCall(n, ScopeState(0, true))
    else if n.AwaitExpr? && n.argument.CallExpr? then CheckCall(n.argument, ScopeState(0, true))
    else []
  }

  /** Outside every loop, with the flag set, every call gets the `Promise.all` verdict. */
  lemma InPromiseAllVerdict(call: Node, st: ScopeState)
    requires st.loopDepth <= 0 && st.inPromiseAllCallback
    ensures CheckCall(call, st) == CheckCall(call, ScopeState(0, true))
  {
  }

  /**
   * Inside a `Promise.all` callback, a subtree that opens no further scope reports exactly its
   * classified calls and awaited calls, in visiting order, each with the `Promise.all` message, and
   * leaves the state as it found it.
   */
  lemma {:induction false} InsidePromiseAllCollects(n: Node, anc: seq<Node>, st: ScopeState)
    requires st.loopDepth <= 0 && st.inPromiseAllCallback
    requires !SomeNode(n, anc, OpensScope)
    ensures Walk(n, anc, st, Enter, Exit).reports == Collect(n, PromiseAllReports)
    ensures Walk(n, anc, st, Enter, Exit).state == st
    decreases n, 1
  {
    var e := Enter(n, anc, st);
    if n.CallExpr? {
      InPromiseAllVerdict(n, st);
    } else if n.AwaitExpr? && n.argument.CallExpr? {
      InPromiseAllVerdict(n.argument, st);
    }
    assert e == Step(st, PromiseAllReports(n));
    InsidePromiseAllCollectsChildren(n, Children(n), 0, anc + [n], st);
    FlatMapAppend([n], PreOrderChildren(n, Children(n), 0), PromiseAllReports);
    assert FlatMap([n], PromiseAllReports) == PromiseAllReports(n) + FlatMap([], PromiseAllReports);
  }

  lemma {:induction false} InsidePromiseAllCollectsChildren(parent: Node, ns: seq<Node>, i: nat, anc: seq<Node>, st: ScopeState)
    requires i <= |ns|
    requires forall c :: c in ns ==> c < parent
    requires st.loopDepth <= 0 && st.inPromiseAllCallback
    requires !SomeChild(parent, ns, i, anc, OpensScope)
    ensures WalkChildren(parent, ns, i, anc, st, Enter, Exit).reports == FlatMap(PreOrderChildren(parent, ns, i), PromiseAllReports)
    ensures WalkChildren(parent, ns, i, anc, st, Enter, Exit).state == st
    decreases parent, 0, |ns| - i
  {
    if i < |ns| {
      var c := ns[i];
      assert c in ns;
      assert !SomeNode(c, anc, OpensScope) && !SomeChild(parent, ns, i + 1, anc, OpensScope);
      InsidePromiseAllCollects(c, anc, st);
      InsidePromiseAllCollectsChildren(parent, ns, i + 1, anc, st);
      FlatMapAppend(PreOrder(c), PreOrderChildren(parent, ns, i + 1), PromiseAllReports);
    }
  }

  /**
   * `await c` with `c` a call is checked by the `AwaitExpression` handler and again by the
   * `CallExpression` handler, in the same state: the same verdict twice, before anything else.
   */
  lemma AwaitedCallCheckedTwice(call: Node, anc: seq<Node>, st: ScopeState)
    requires call.CallExpr?
    ensures CheckCall(call, st) + CheckCall(call, st) <= Walk(AwaitExpr(call), anc, st, Enter, Exit).reports
  {
    var aw := AwaitExpr(call);
    var inner := Walk(call, anc + [aw], st, Enter, Exit);
    assert Enter(call, anc + [aw], st).reports == CheckCall(call, st);
    assert CheckCall(call, st) <= inner.reports;
    assert Children(aw) == [call];
    assert WalkChildren(aw, [call], 1, anc + [aw], inner.state, Enter, Exit).reports == [];
    assert WalkChildren(aw, [call], 0, anc + [aw], st, Enter, Exit).reports == inner.reports + [];
  }

  /** A node that is no loop, function, call or `await` leaves the state alone and reports nothing. */
  lemma Inert(n: Node, anc: seq<Node>, st: ScopeState)
    requires !n.LoopStmt? && !IsFunctionValue(n) && !n.CallExpr? && !n.AwaitExpr?
    ensures Enter(n, anc, st) == Step(st, []) && Exit(n, anc, st) == st
  {
  }

  /** A member access `a.b` opens nothing and reports nothing. */
  lemma MemberQuiet(m: Node, a: string, b: string, anc: seq<Node>, st: ScopeState)
    requires m == MemberExpr(Identifier(a), Identifier(b))
    ensures Walk(m, anc, st, Enter, Exit) == Step(st, [])
  {
    Inert(m, anc, st);
    Inert(Identifier(a), anc + [m], st);
    Inert(Identifier(b), anc + [m], st);
    WalkNoChildren(Identifier(a), anc + [m], st, Enter, Exit);
    WalkNoChildren(Identifier(b), anc + [m], st, Enter, Exit);
    WalkTwoChildren(m, Identifier(a), Identifier(b), anc, st, Enter, Exit);
  }

  /** A call `a.b()` is checked once, in the state the walk reaches it with. */
  lemma SimpleCallWalk(call: Node, a: string, b: string, anc: seq<Node>, st: ScopeState)
    requires call == CallExpr(MemberExpr(Identifier(a), Identifier(b)), [])
    ensures Walk(call, anc, st, Enter, Exit) == Step(st, CheckCall(call, st))
  {
    MemberQuiet(call.callee, a, b, anc + [call], st);
    assert Children(call) == [call.callee];
    WalkOneChild(call, call.callee, anc, st, Enter, Exit);
  }

  /** Entering an iteration callback outside any flagged scope reports nothing, and leaving it undoes the change. */
  lemma CallbackEnterExit(cb: Node, anc: seq<Node>, st: ScopeState)
    requires IsIterationCallback(cb, anc) && !st.inPromiseAllCallback
    ensures Enter(cb, anc, st).reports == []
    ensures Exit(cb, anc, Enter(cb, anc, st).state) == st
  {
  }

  /** A callback `() => a.b()` checks its call in the scope it opens, and closes that scope again. */
  lemma CallbackWalk(cb: Node, inner: Node, a: string, b: string, anc: seq<Node>, st: ScopeState)
    requires inner == CallExpr(MemberExpr(Identifier(a), Identifier(b)), [])
    requires cb == ArrowFn([], [inner]) && IsIterationCallback(cb, anc) && !st.inPromiseAllCallback
    ensures Walk(cb, anc, st, Enter, Exit) == Step(st, CheckCall(inner, Enter(cb, anc, st).state))
  {
    var e := Enter(cb, anc, st);
    CallbackEnterExit(cb, anc, st);
    SimpleCallWalk(inner, a, b, anc + [cb], e.state);
    assert Children(cb) == [inner];
    WalkOneChild(cb, inner, anc, st, Enter, Exit);
    assert [] + CheckCall(inner, e.state) == CheckCall(inner, e.state);
  }

  lemma UserRepositoryFindById(inner: Node)
    requires inner == CallExpr(MemberExpr(Identifier("userRepository"), Identifier("findById")), [])
    ensures ClassifyCall(inner) == Some("findById")
  {
    assert ToLower("userRepository") == "userrepository";
    ContainsMatch("userrepository", "repo", 4);
    ReceiverTierClassifies("userRepository", "findById", []);
  }

  /** What `userRepository.findById()` gets in a loop scope and in a `Promise.all` callback. */
  lemma UserRepositoryVerdicts(inner: Node)
    requires inner == CallExpr(MemberExpr(Identifier("userRepository"), Identifier("findById")), [])
    ensures CheckCall(inner, ScopeState(1, false)) == [Report(LoopMessage, inner, map["method" := "findById"])]
    ensures CheckCall(inner, ScopeState(0, true)) == [Report(PromiseAllMessage, inner, map["method" := "findById"])]
    ensures CheckCall(inner, Initial) == []
  {
    UserRepositoryFindById(inner);
  }

  /** A loop around a single call `a.b()`: the call is checked in a loop scope. */
  lemma LoopWalk(loop: Node, call: Node, kind: LoopKind, a: string, b: string)
    requires call == CallExpr(MemberExpr(Identifier(a), Identifier(b)), [])
    requires loop == LoopStmt(kind, [call])
    ensures Lint(loop) == CheckCall(call, ScopeState(1, false))
  {
    assert Enter(loop, [], Initial) == Step(ScopeState(1, false), []);
    assert Exit(loop, [], ScopeState(1, false)) == Initial;
    SimpleCallWalk(call, a, b, [] + [loop], ScopeState(1, false));
    WalkOneChild(loop, call, [], Initial, Enter, Exit);
  }

  /** `for (...) userRepository.findById()`: reported once, with the loop message. */
  lemma LoopExample(loop: Node, call: Node)
    requires call == CallExpr(MemberExpr(Identifier("userRepository"), Identifier("findById")), [])
    requires loop == LoopStmt(ForOfLoop, [call])
    ensures Lint(loop) == [Report(LoopMessage, call, map["method" := "findById"])]
  {
    UserRepositoryVerdicts(call);
    LoopWalk(loop, call, ForOfLoop, "userRepository", "findById");
  }

  /** A repository call outside every loop and callback is not reported. */
  lemma TopLevelCallQuiet(call: Node)
    requires call == CallExpr(MemberExpr(Identifier("userRepository"), Identifier("findById")), [])
    ensures Lint(call) == []
  {
    SimpleCallWalk(call, "userRepository", "findById", [], Initial);
  }

  /** Outside every scope a call reports nothing, and leaving it changes nothing. */
  lemma CallOutsideScopes(n: Node, anc: seq<Node>)
    requires n.CallExpr?
    ensures Enter(n, anc, Initial) == Step(Initial, []) && Exit(n, anc, Initial) == Initial
  {
  }

  /** A callback of `r.m(...)`, `m` an iteration method, directly under `Promise.all(...)` sets the flag. */
  lemma CallbackUnderPromiseAll(cb: Node, call: Node, r: string, m: string, anc: seq<Node>)
    requires cb.ArrowFn? && call == CallExpr(MemberExpr(Identifier(r), Identifier(m)), [cb]) && m in IterationMethods
    requires |anc| > 0 && IsPromiseAllCall(anc[|anc| - 1])
    ensures IsIterationCallback(cb, anc + [call]) && PromiseAllAbove(anc + [call], |anc|)
    ensures Enter(cb, anc + [call], Initial).state == ScopeState(0, true)
  {
    var anc' := anc + [call];
    assert anc'[|anc'| - 1] == call && anc'[|anc| - 1] == anc[|anc| - 1];
  }

  /** A call `r.m(x)` walked outside every scope reports what its argument reports, and nothing of its own. */
  lemma OuterCallWalk(call: Node, arg: Node, r: string, m: string, anc: seq<Node>, reports: seq<Report>)
    requires call == CallExpr(MemberExpr(Identifier(r), Identifier(m)), [arg])
    requires Walk(arg, anc + [call], Initial, Enter, Exit) == Step(Initial, reports)
    ensures Walk(call, anc, Initial, Enter, Exit) == Step(Initial, reports)
  {
    MemberQuiet(call.callee, r, m, anc + [call], Initial);
    CallOutsideScopes(call, anc);
    assert Children(call) == [call.callee, arg];
    WalkTwoChildren(call, call.callee, arg, anc, Initial, Enter, Exit);
    assert [] + ([] + reports) == reports;
  }

  /** A `Promise.all` callback `() => { body }` walks its body with the flag set, then clears it. */
  lemma PromiseAllCallbackWalk(cb: Node, body: Node, anc: seq<Node>)
    requires cb == ArrowFn([], [body]) && IsPromiseAllCallback(cb, anc)
    ensures Walk(cb, anc, Initial, Enter, Exit)
      == Step(Initial, Walk(body, anc + [cb], ScopeState(0, true), Enter, Exit).reports)
  {
    assert Enter(cb, anc, Initial) == Step(ScopeState(0, true), []);
    LoopDepthRestored(body, anc + [cb], ScopeState(0, true));
    assert Children(cb) == [body];
    WalkOneChild(cb, body, anc, Initial, Enter, Exit);
  }

  /** `r.m(() => a.b())`, `m` an iteration method, walked directly below `Promise.all(...)`. */
  lemma MapCallWalk(call: Node, cb: Node, inner: Node, r: string, m: string, a: string, b: string, anc: seq<Node>)
    requires inner == CallExpr(MemberExpr(Identifier(a), Identifier(b)), [])
    requires cb == ArrowFn([], [inner])
    requires call == CallExpr(MemberExpr(Identifier(r), Identifier(m)), [cb]) && m in IterationMethods
    requires |anc| > 0 && IsPromiseAllCall(anc[|anc| - 1])
    ensures Walk(call, anc, Initial, Enter, Exit) == Step(Initial, CheckCall(inner, ScopeState(0, true)))
  {
    var anc' := anc + [call];
    CallbackUnderPromiseAll(cb, call, r, m, anc);
    CallbackWalk(cb, inner, a, b, anc', Initial);
    MemberQuiet(call.callee, r, m, anc', Initial);
    CallOutsideScopes(call, anc);
    assert Children(call) == [call.callee, cb];
    WalkTwoChildren(call, call.callee, cb, anc, Initial, Enter, Exit);
  }

  /**
   * `Promise.all(r.m(() => { body }))`, `m` an iteration method: the whole file reports what the
   * body reports when walked with the flag set.
   */
  lemma PromiseAllBodyWalk(pa: Node, call: Node, cb: Node, body: Node, r: string, m: string)
    requires cb == ArrowFn([], [body])
    requires call == CallExpr(MemberExpr(Identifier(r), Identifier(m)), [cb]) && m in IterationMethods
    requires pa == CallExpr(MemberExpr(Identifier("Promise"), Identifier("all")), [call])
    ensures Lint(pa) == Walk(body, [pa, call, cb], ScopeState(0, true), Enter, Exit).reports
  {
    assert IsPromiseAllCall(pa);
    assert [] + [pa] == [pa];
    assert [pa] + [call] == [pa, call] && [pa, call] + [cb] == [pa, call, cb];
    var reports := Walk(body, [pa, call, cb], ScopeState(0, true), Enter, Exit).reports;
    CallbackUnderPromiseAll(cb, call, r, m, [pa]);
    PromiseAllCallbackWalk(cb, body, [pa, call]);
    OuterCallWalk(call, cb, r, m, [pa], reports);
    OuterCallWalk(pa, call, "Promise", "all", [], reports);
  }

  /**
   * `Promise.all(r.m(() => { body }))`, `m` an iteration method, with no loop or iteration callback
   * in the body: the file reports every classified call and awaited call of the body, in order,
   * with the `Promise.all` message.
   */
  lemma PromiseAllBodyCollects(pa: Node, call: Node, cb: Node, body: Node, r: string, m: string)
    requires cb == ArrowFn([], [body])
    requires call == CallExpr(MemberExpr(Identifier(r), Identifier(m)), [cb]) && m in IterationMethods
    requires pa == CallExpr(MemberExpr(Identifier("Promise"), Identifier("all")), [call])
    requires !SomeNode(body, [pa, call, cb], OpensScope)
    ensures Lint(pa) == Collect(body, PromiseAllReports)
  {
    PromiseAllBodyWalk(pa, call, cb, body, r, m);
    InsidePromiseAllCollects(body, [pa, call, cb], ScopeState(0, true));
  }

  /** `Promise.all(r.m(() => a.b()))`, `m` an iteration method: the call is checked with the flag set. */
  lemma PromiseAllWalk(pa: Node, call: Node, cb: Node, inner: Node, r: string, m: string, a: string, b: string)
    requires inner == CallExpr(MemberExpr(Identifier(a), Identifier(b)), [])
    requires cb == ArrowFn([], [inner])
    requires call == CallExpr(MemberExpr(Identifier(r), Identifier(m)), [cb]) && m in IterationMethods
    requires pa == CallExpr(MemberExpr(Identifier("Promise"), Identifier("all")), [call])
    ensures Lint(pa) == CheckCall(inner, ScopeState(0, true))
  {
    PromiseAllBodyWalk(pa, call, cb, inner, r, m);
    SimpleCallWalk(inner, a, b, [pa, call, cb], ScopeState(0, true));
  }

  /** `Promise.all(ids.map(() => userRepository.findById()))`: reported once, with the `Promise.all` message. */
  lemma PromiseAllExample(pa: Node, mapCall: Node, cb: Node, inner: Node)
    requires inner == CallExpr(MemberExpr(Identifier("userRepository"), Identifier("findById")), [])
    requires cb == ArrowFn([], [inner])
    requires mapCall == CallExpr(MemberExpr(Identifier("ids"), Identifier("map")), [cb])
    requires pa == CallExpr(MemberExpr(Identifier("Promise"), Identifier("all")), [mapCall])
    ensures Lint(pa) == [Report(PromiseAllMessage, inner, map["method" := "findById"])]
  {
    UserRepositoryVerdicts(inner);
    assert "map" in IterationMethods;
    PromiseAllWalk(pa, mapCall, cb, inner, "ids", "map", "userRepository", "findById");
  }

  /** `a.b()` collects only its own verdict: its callee holds no call. */
  lemma SimpleCallCollects(call: Node, a: string, b: string)
    requires call == CallExpr(MemberExpr(Identifier(a), Identifier(b)), [])
    ensures Collect(call, LoopReports) == CheckCall(call, ScopeState(1, false))
  {
    CollectLeaf(Identifier(a), LoopReports);
    CollectLeaf(Identifier(b), LoopReports);
    CollectTwoChildren(call.callee, Identifier(a), Identifier(b), LoopReports);
    assert Children(call) == [call.callee];
    CollectOneChild(call, call.callee, LoopReports);
  }

  /**
   * `Promise.all(ids.map(() => { for (...) userRepository.findById() }))`: the loop inside the
   * callback takes precedence, and the call is reported once, with the loop message.
   */
  lemma LoopInsidePromiseAllExample(pa: Node, mapCall: Node, cb: Node, loop: Node, inner: Node)
    requires inner == CallExpr(MemberExpr(Identifier("userRepository"), Identifier("findById")), [])
    requires loop == LoopStmt(ForOfLoop, [inner])
    requires cb == ArrowFn([], [loop])
    requires mapCall == CallExpr(MemberExpr(Identifier("ids"), Identifier("map")), [cb])
    requires pa == CallExpr(MemberExpr(Identifier("Promise"), Identifier("all")), [mapCall])
    ensures Lint(pa) == [Report(LoopMessage, inner, map["method" := "findById"])]
  {
    UserRepositoryVerdicts(inner);
    assert "map" in IterationMethods;
    PromiseAllBodyWalk(pa, mapCall, cb, loop, "ids", "map");
    LoopScopeCollects(loop, [pa, mapCall, cb], ScopeState(0, true));
    SimpleCallCollects(inner, "userRepository", "findById");
    assert Children(loop) == [inner];
    CollectOneChild(loop, inner, LoopReports);
  }

  /** `r.m(() => a.b())`, `m` an iteration method, with nothing above it: the callback opens a loop scope. */
  lemma IterationWalk(call: Node, cb: Node, inner: Node, r: string, m: string, a: string, b: string)
    requires inner == CallExpr(MemberExpr(Identifier(a), Identifier(b)), [])
    requires cb == ArrowFn([], [inner])
    requires call == CallExpr(MemberExpr(Identifier(r), Identifier(m)), [cb]) && m in IterationMethods
    ensures Lint(call) == CheckCall(inner, ScopeState(1, false))
  {
    assert [] + [call] == [call];
    assert IsIterationCallback(cb, [call]) && !PromiseAllAbove([call], 0);
    assert Enter(cb, [call], Initial).state == ScopeState(1, false);
    CallbackWalk(cb, inner, a, b, [call], Initial);
    MemberQuiet(call.callee, r, m, [call], Initial);
    CallOutsideScopes(call, []);
    assert Children(call) == [call.callee, cb];
    WalkTwoChildren(call, call.callee, cb, [], Initial, Enter, Exit);
  }

  /** `ids.map(() => userRepository.findById())` alone is an iteration: the loop message. */
  lemma MapWithoutPromiseAllExample(mapCall: Node, cb: Node, inner: Node)
    requires inner == CallExpr(MemberExpr(Identifier("userRepository"), Identifier("findById")), [])
    requires cb == ArrowFn([], [inner])
    requires mapCall == CallExpr(MemberExpr(Identifier("ids"), Identifier("map")), [cb])
    ensures Lint(mapCall) == [Report(LoopMessage, inner, map["method" := "findById"])]
  {
    UserRepositoryVerdicts(inner);
    assert "map" in IterationMethods;
    IterationWalk(mapCall, cb, inner, "ids", "map", "userRepository", "findById");
  }
}
