/** The searches the detectors run on the function call graph. A graph maps a
    function to its callees in the order its hash set yields them, so every
    statement here holds for every iteration order. */
module CallGraph {
  import opened Reachability

  type FnId = nat
  type Graph = map<FnId, seq<FnId>>

  ghost function Calls(g: Graph): (FnId, FnId) -> bool {
    (f, h) => f in g && h in g[f]
  }

  /** Everything a search from `start` can meet. */
  ghost function Nodes(g: Graph, start: FnId): set<FnId> {
    {start} + set f, h | f in g && h in g[f] :: h
  }

  /** Some function of `targets` is `start` or is called from it, at any depth. */
  ghost predicate Reaches(g: Graph, start: FnId, targets: set<FnId>) {
    exists f :: f in targets && Reachable(Calls(g), start, f)
  }

  lemma ReachableIsNode(g: Graph, start: FnId, f: FnId)
    requires Reachable(Calls(g), start, f)
    ensures f in Nodes(g, start)
  {
    ClosedSetHolds(Calls(g), Nodes(g, start), start, f);
  }

  /** True exactly when the start function, or a function it calls at any depth, authorizes. */
  method IsAuthReachable(start: FnId, g: Graph, authorized: set<FnId>) returns (found: bool)
    ensures found <==> Reaches(g, start, authorized)
  {
    var visited: set<FnId> := {};
    var stack := [start];
    SearchStart(Calls(g), start);
    while |stack| > 0
      invariant SearchInv(Calls(g), start, visited, stack)
      invariant visited !! authorized
      decreases Nodes(g, start) - visited, |stack|
    {
      var f, rest := stack[|stack| - 1], stack[..|stack| - 1];
      assert stack == rest + [f];
      ReachableIsNode(g, start, f);
      stack := rest;
      if f in visited {
        SearchSkip(Calls(g), start, visited, rest, f);
        continue;
      }
      if f in authorized {
        return true;
      }
      var callees := if f in g then g[f] else [];
      SearchStep(Calls(g), start, visited, rest, f, callees);
      visited := visited + {f};
      stack := stack + callees;
    }
    SearchDone(Calls(g), start, visited);
    return false;
  }

  /** The callees the search still has to stack. */
  method Unvisited(callees: seq<FnId>, reachable: set<FnId>) returns (pushed: seq<FnId>)
    ensures forall h :: h in pushed <==> h in callees && h !in reachable
  {
    pushed := [];
    for i := 0 to |callees|
      invariant forall h :: h in pushed <==> h in callees[..i] && h !in reachable
    {
      assert callees[..i + 1] == callees[..i] + [callees[i]];
      if callees[i] !in reachable {
        pushed := pushed + [callees[i]];
      }
    }
    assert callees[..|callees|] == callees;
  }

  /** The set of functions to analyze for one entry point. */
  method ReachableFunctions(g: Graph, entry: FnId) returns (reachable: set<FnId>)
    ensures forall f :: f in reachable <==> Reachable(Calls(g), entry, f)
  {
    reachable := {};
    var stack := [entry];
    SearchStart(Calls(g), entry);
    while |stack| > 0
      invariant SearchInv(Calls(g), entry, reachable, stack)
      decreases Nodes(g, entry) - reachable, |stack|
    {
      var current, rest := stack[|stack| - 1], stack[..|stack| - 1];
      assert stack == rest + [current];
      ReachableIsNode(g, entry, current);
      stack := rest;
      if current in reachable {
        SearchSkip(Calls(g), entry, reachable, rest, current);
        continue;
      }
      ghost var visited := reachable;
      reachable := reachable + {current};
      var callees := if current in g then g[current] else [];
      var pushed := Unvisited(callees, reachable);
      SearchStep(Calls(g), entry, visited, rest, current, pushed);
      stack := stack + pushed;
    }
    SearchDone(Calls(g), entry, reachable);
  }

  // ----- storage-change-events: recursion without a visited set -----

  /** What the unguarded recursion does on a call stack of the given depth. */
  datatype Verdict = Answer(found: bool) | Overflow

  /** Both recursions of the detector: is a member of `targets` at or below `f`? */
  function CheckBelow(g: Graph, f: FnId, targets: set<FnId>, depth: nat): Verdict
    decreases depth, 1, 0
  {
    if depth == 0 then Overflow
    else if f in targets then Answer(true)
    else if f !in g then Answer(false)
    else CheckChildren(g, g[f], targets, depth)
  }

  function CheckChildren(g: Graph, children: seq<FnId>, targets: set<FnId>, depth: nat): Verdict
    requires depth > 0
    decreases depth, 0, |children|
  {
    if children == [] then Answer(false)
    else if children[0] in targets then Answer(true)
    else
      match CheckBelow(g, children[0], targets, depth - 1)
      case Overflow => Overflow
      case Answer(true) => Answer(true)
      case Answer(false) => CheckChildren(g, children[1..], targets, depth)
  }

  /** Whenever the recursion answers, on any graph, the answer is the one of the guarded search. */
  lemma {:induction false} AnswerIsReachability(g: Graph, f: FnId, targets: set<FnId>, depth: nat)
    requires CheckBelow(g, f, targets, depth).Answer?
    ensures CheckBelow(g, f, targets, depth).found <==> Reaches(g, f, targets)
    decreases depth, 1, 0
  {
    ReachableSelf(Calls(g), f);
    if f !in targets {
      if f in g {
        ChildrenAnswer(g, g[f], targets, depth);
        forall h, t | h in g[f] && t in targets && Reachable(Calls(g), h, t)
          ensures Reachable(Calls(g), f, t)
        {
          StepReachable(Calls(g), f, h, t);
        }
      }
      forall t | t in targets && Reachable(Calls(g), f, t)
        ensures f in g && exists h :: h in g[f] && Reaches(g, h, targets)
      {
        var path :| Connects(Calls(g), path, f, t);
        assert Calls(g)(path[0], path[1]);
        assert Connects(Calls(g), path[1..], path[1], t);
      }
    }
  }

  lemma {:induction false} ChildrenAnswer(g: Graph, children: seq<FnId>, targets: set<FnId>, depth: nat)
    requires depth > 0 && CheckChildren(g, children, targets, depth).Answer?
    ensures CheckChildren(g, children, targets, depth).found <==> exists h :: h in children && Reaches(g, h, targets)
    decreases depth, 0, |children|
  {
    if children != [] {
      ReachableSelf(Calls(g), children[0]);
      assert children[0] in children;
      if children[0] in targets {
        assert Reaches(g, children[0], targets);
      } else {
        AnswerIsReachability(g, children[0], targets, depth - 1);
        if CheckBelow(g, children[0], targets, depth - 1) == Answer(false) {
          ChildrenAnswer(g, children[1..], targets, depth);
          assert forall h :: h in children <==> h == children[0] || h in children[1..];
        }
      }
    }
  }

  /** A callee that is a target is found without descending into it: after callees that answer no, one frame is
      enough. */
  lemma {:induction false} TargetFoundWithoutCall(g: Graph, f: FnId, targets: set<FnId>, depth: nat, i: nat, k: nat)
    requires depth > 0 && f in g && f !in targets && k <= i < |g[f]| && g[f][i] in targets
    requires forall j :: 0 <= j < i ==> CheckBelow(g, g[f][j], targets, depth - 1) == Answer(false)
    ensures CheckChildren(g, g[f][k..], targets, depth) == Answer(true)
    ensures k == 0 ==> CheckBelow(g, f, targets, depth) == Answer(true)
    decreases i - k
  {
    assert g[f][k..][0] == g[f][k] && g[f][k..][1..] == g[f][k + 1..] && g[f][0..] == g[f];
    if k < i {
      TargetFoundWithoutCall(g, f, targets, depth, i, k + 1);
    }
  }

  // ----- when the recursion finishes -----

  /** No function that `f` reaches can reach itself through a step. */
  ghost predicate Acyclic(step: (FnId, FnId) -> bool, f: FnId) {
    forall u, v :: Reachable(step, f, u) && step(u, v) ==> !Reachable(step, v, u)
  }

  /** The calls the recursion descends into: none out of a target, and none after a callee that finds one. */
  ghost function Explores(g: Graph, targets: set<FnId>): (FnId, FnId) -> bool {
    (f, h) => f in g && f !in targets && exists i :: 0 <= i < |g[f]| && g[f][i] == h && NothingBefore(g, f, targets, i)
  }

  ghost predicate NothingBefore(g: Graph, f: FnId, targets: set<FnId>, i: nat)
    requires f in g && i <= |g[f]|
  {
    forall j :: 0 <= j < i ==> !Reaches(g, g[f][j], targets)
  }

  ghost function Below(g: Graph, targets: set<FnId>, f: FnId): set<FnId> {
    set h | h in Nodes(g, f) && Reachable(Explores(g, targets), f, h)
  }

  /** Without a cycle, a callee reaches strictly less. */
  lemma CalleeReachesLess(step: (FnId, FnId) -> bool, f: FnId, h: FnId, belowF: set<FnId>, belowH: set<FnId>)
    requires Acyclic(step, f) && step(f, h)
    requires forall u :: u in belowF <==> Reachable(step, f, u)
    requires forall u :: u in belowH <==> Reachable(step, h, u)
    ensures |belowH| < |belowF| && Acyclic(step, h)
  {
    ReachableSelf(step, f);
    assert f in belowF && f !in belowH;
    forall u | Reachable(step, h, u)
      ensures Reachable(step, f, u)
    {
      StepReachable(step, f, h, u);
    }
    ProperSubset(belowH, belowF);
  }

  lemma BelowMeaning(g: Graph, targets: set<FnId>, f: FnId)
    ensures forall h :: h in Below(g, targets, f) <==> Reachable(Explores(g, targets), f, h)
  {
    forall h | Reachable(Explores(g, targets), f, h)
      ensures h in Nodes(g, f)
    {
      ReachableMonotone(Explores(g, targets), Calls(g), f, h);
      ReachableIsNode(g, f, h);
    }
  }

  /** Below an acyclic function, a callee explores strictly less. */
  lemma BelowShrinks(g: Graph, targets: set<FnId>, f: FnId, h: FnId)
    requires Acyclic(Explores(g, targets), f) && Explores(g, targets)(f, h)
    ensures |Below(g, targets, h)| < |Below(g, targets, f)| && Acyclic(Explores(g, targets), h)
  {
    BelowMeaning(g, targets, f);
    BelowMeaning(g, targets, h);
    CalleeReachesLess(Explores(g, targets), f, h, Below(g, targets, f), Below(g, targets, h));
  }

  lemma ProperSubset<T>(a: set<T>, b: set<T>)
    requires a < b
    ensures |a| < |b|
  {
    assert b == a + (b - a);
    assert |b| == |a| + |b - a|;
  }

  /** With no cycle in what is explored, a stack as deep as there are functions in it always answers. */
  lemma {:induction false} AcyclicAnswers(g: Graph, f: FnId, targets: set<FnId>, depth: nat)
    requires Acyclic(Explores(g, targets), f) && depth >= |Below(g, targets, f)|
    ensures CheckBelow(g, f, targets, depth).Answer?
    decreases depth, 1, 0
  {
    ReachableSelf(Explores(g, targets), f);
    assert f in Below(g, targets, f);
    if f in g && f !in targets {
      CalleesAnswer(g, f, targets, depth, 0);
      assert g[f][0..] == g[f];
    }
  }

  lemma {:induction false} CalleesAnswer(g: Graph, f: FnId, targets: set<FnId>, depth: nat, i: nat)
    requires Acyclic(Explores(g, targets), f) && depth > 0 && depth >= |Below(g, targets, f)|
    requires f in g && f !in targets && i <= |g[f]| && NothingBefore(g, f, targets, i)
    ensures CheckChildren(g, g[f][i..], targets, depth).Answer?
    decreases depth, 0, |g[f]| - i
  {
    if i < |g[f]| {
      var h := g[f][i];
      assert g[f][i..][0] == h && g[f][i..][1..] == g[f][i + 1..];
      assert Explores(g, targets)(f, h);
      BelowShrinks(g, targets, f, h);
      AcyclicAnswers(g, h, targets, depth - 1);
      if CheckBelow(g, h, targets, depth - 1) == Answer(false) {
        AnswerIsReachability(g, h, targets, depth - 1);
        CalleesAnswer(g, f, targets, depth, i + 1);
      }
    }
  }

  /** With a cycle in what is explored, no stack is deep enough. */
  lemma {:induction false} CycleOverflows(g: Graph, f: FnId, targets: set<FnId>, depth: nat)
    requires !Acyclic(Explores(g, targets), f)
    ensures CheckBelow(g, f, targets, depth) == Overflow
    decreases depth, 1, 0
  {
    if depth > 0 {
      var h := CyclicCallee(Explores(g, targets), f);
      var i :| 0 <= i < |g[f]| && g[f][i] == h && NothingBefore(g, f, targets, i);
      CalleesOverflow(g, f, targets, depth, 0, i);
      assert g[f][0..] == g[f];
    }
  }

  /** A function above a cycle has a callee above that cycle. */
  lemma CyclicCallee(step: (FnId, FnId) -> bool, f: FnId) returns (h: FnId)
    requires !Acyclic(step, f)
    ensures step(f, h) && !Acyclic(step, h)
  {
    var u, v :| Reachable(step, f, u) && step(u, v) && Reachable(step, v, u);
    var path :| Connects(step, path, f, u);
    if |path| == 1 {
      h := v;
    } else {
      h := path[1];
      assert step(path[0], path[1]);
      assert Connects(step, path[1..], h, u);
    }
  }

  lemma {:induction false} CalleesOverflow(g: Graph, f: FnId, targets: set<FnId>, depth: nat, k: nat, i: nat)
    requires depth > 0 && f in g && k <= i < |g[f]| && NothingBefore(g, f, targets, i)
    requires !Acyclic(Explores(g, targets), g[f][i])
    ensures CheckChildren(g, g[f][k..], targets, depth) == Overflow
    decreases depth, 0, i - k
  {
    var first := g[f][k];
    assert g[f][k..][0] == first && g[f][k..][1..] == g[f][k + 1..];
    if k == i {
      var next := CyclicCallee(Explores(g, targets), first);
      CycleOverflows(g, first, targets, depth - 1);
    } else {
      ReachableSelf(Calls(g), first);
      if CheckBelow(g, first, targets, depth - 1).Answer? {
        AnswerIsReachability(g, first, targets, depth - 1);
        CalleesOverflow(g, f, targets, depth, k + 1, i);
      }
    }
  }

  /** Some stack is deep enough. */
  ghost predicate Finishes(g: Graph, f: FnId, targets: set<FnId>) {
    exists depth: nat :: CheckBelow(g, f, targets, depth).Answer?
  }

  /** The recursion finishes if and only if there is no cycle in what it explores. */
  lemma FinishesIffAcyclic(g: Graph, f: FnId, targets: set<FnId>)
    ensures Finishes(g, f, targets) <==> Acyclic(Explores(g, targets), f)
  {
    if Acyclic(Explores(g, targets), f) {
      AcyclicAnswers(g, f, targets, |Below(g, targets, f)|);
    } else {
      forall depth: nat ensures CheckBelow(g, f, targets, depth) == Overflow {
        CycleOverflows(g, f, targets, depth);
      }
    }
  }

  // ----- when it finishes in every order of the callees -----

  /** The same callees, each in some other order. */
  ghost predicate Reorders(g: Graph, g': Graph) {
    g'.Keys == g.Keys && forall f :: f in g ==> multiset(g'[f]) == multiset(g[f])
  }

  /** The calls of the graph without those out of targets. */
  ghost function CutCalls(g: Graph, targets: set<FnId>): (FnId, FnId) -> bool {
    (f, h) => f in g && f !in targets && h in g[f]
  }

  lemma ReorderedCalls(g: Graph, g': Graph, f: FnId, h: FnId)
    requires Reorders(g, g') && f in g
    ensures h in g'[f] <==> h in g[f]
  {
    assert h in multiset(g'[f]) <==> h in multiset(g[f]);
  }

  lemma ExploredIsCut(g: Graph, g': Graph, f: FnId, targets: set<FnId>)
    requires Reorders(g, g') && Acyclic(CutCalls(g, targets), f)
    ensures Acyclic(Explores(g', targets), f)
  {
    forall u, v | Explores(g', targets)(u, v)
      ensures CutCalls(g, targets)(u, v)
    {
      ReorderedCalls(g, g', u, v);
    }
    FewerStepsAcyclic(Explores(g', targets), CutCalls(g, targets), f);
  }

  /** Dropping steps makes no cycle. */
  lemma FewerStepsAcyclic(step: (FnId, FnId) -> bool, wider: (FnId, FnId) -> bool, f: FnId)
    requires forall u, v :: step(u, v) ==> wider(u, v)
    requires Acyclic(wider, f)
    ensures Acyclic(step, f)
  {
    forall u, v | Reachable(step, f, u) && step(u, v)
      ensures !Reachable(step, v, u)
    {
      ReachableMonotone(step, wider, f, u);
      if Reachable(step, v, u) {
        ReachableMonotone(step, wider, v, u);
      }
    }
  }

  ghost function EndlessCalleeFirst(callees: seq<FnId>, endless: set<FnId>): (r: seq<FnId>)
    ensures multiset(r) == multiset(callees)
    ensures (exists h :: h in callees && h in endless) ==> r != [] && r[0] in endless
  {
    if i :| 0 <= i < |callees| && callees[i] in endless then
      assert callees == callees[..i] + [callees[i]] + callees[i + 1..];
      [callees[i]] + callees[..i] + callees[i + 1..]
    else callees
  }

  /** The functions on or above a cycle. */
  ghost function Endless(g: Graph, targets: set<FnId>): set<FnId> {
    set u | u in g && !Acyclic(CutCalls(g, targets), u)
  }

  lemma CyclicIsEndless(g: Graph, u: FnId, targets: set<FnId>)
    requires !Acyclic(CutCalls(g, targets), u)
    ensures u in Endless(g, targets) && u !in targets && exists h :: h in g[u] && h in Endless(g, targets)
  {
    var h := CyclicCallee(CutCalls(g, targets), u);
    var next := CyclicCallee(CutCalls(g, targets), h);
    assert h in g[u] && h in Endless(g, targets);
  }

  ghost predicate CallsOneFirst(g: Graph, targets: set<FnId>, endless: set<FnId>, u: FnId) {
    u in g && u !in targets && g[u] != [] && g[u][0] in endless
  }

  ghost predicate EndlessFirst(g: Graph, targets: set<FnId>, endless: set<FnId>) {
    forall u {:trigger CallsOneFirst(g, targets, endless, u)} :: u in endless ==> CallsOneFirst(g, targets, endless, u)
  }

  /** In some order, every function on or above a cycle first calls another one. */
  lemma CyclesCanBeFirst(g: Graph, targets: set<FnId>) returns (g': Graph)
    ensures Reorders(g, g') && EndlessFirst(g', targets, Endless(g, targets))
  {
    g' := map u | u in g :: EndlessCalleeFirst(g[u], Endless(g, targets));
    forall u | u in Endless(g, targets)
      ensures CallsOneFirst(g', targets, Endless(g, targets), u)
    {
      CyclicIsEndless(g, u, targets);
    }
  }

  /** Functions whose first callee is one of them again are never left. */
  lemma {:induction false} EndlessOverflows(g: Graph, f: FnId, targets: set<FnId>, endless: set<FnId>, depth: nat)
    requires EndlessFirst(g, targets, endless) && f in endless
    ensures CheckBelow(g, f, targets, depth) == Overflow
    decreases depth
  {
    if depth > 0 {
      assert CallsOneFirst(g, targets, endless, f) && CallsOneFirst(g, targets, endless, g[f][0]);
      EndlessOverflows(g, g[f][0], targets, endless, depth - 1);
    }
  }

  lemma SomeOrderOverflows(g: Graph, f: FnId, targets: set<FnId>) returns (g': Graph)
    requires !Acyclic(CutCalls(g, targets), f)
    ensures Reorders(g, g') && !Finishes(g', f, targets)
  {
    g' := CyclesCanBeFirst(g, targets);
    CyclicIsEndless(g, f, targets);
    forall depth: nat
      ensures CheckBelow(g', f, targets, depth) == Overflow
    {
      EndlessOverflows(g', f, targets, Endless(g, targets), depth);
    }
  }

  /** The recursion finishes in every order of the callees if and only if there is no cycle below `f` in the
      graph without the calls out of targets. */
  lemma FinishesInEveryOrder(g: Graph, f: FnId, targets: set<FnId>)
    ensures (forall g' :: Reorders(g, g') ==> Finishes(g', f, targets)) <==> Acyclic(CutCalls(g, targets), f)
  {
    if Acyclic(CutCalls(g, targets), f) {
      forall g' | Reorders(g, g')
        ensures Finishes(g', f, targets)
      {
        ExploredIsCut(g, g', f, targets);
        FinishesIffAcyclic(g', f, targets);
      }
    } else {
      var g' := SomeOrderOverflows(g, f, targets);
    }
  }

  /** The finding of storage-change-events for one public function. */
  predicate MissesEvent(emits: Verdict, setsStorage: Verdict, returnsValue: bool, writesDirectly: bool)
    requires emits.Answer? && setsStorage.Answer?
  {
    !emits.found && setsStorage.found && !(returnsValue && !writesDirectly)
  }

  /** Where both recursions finish, a public function is reported exactly when its flow holds no event
      and holds an eventless storage change, and it is not a read-only getter. */
  lemma MissesEventMeaning(g: Graph, f: FnId, withEvents: set<FnId>, eventless: set<FnId>,
                           returnsValue: bool, writers: set<FnId>, depth: nat)
    requires Acyclic(Explores(g, withEvents), f) && depth >= |Below(g, withEvents, f)|
    requires Acyclic(Explores(g, eventless), f) && depth >= |Below(g, eventless, f)|
    ensures var emits, sets := CheckBelow(g, f, withEvents, depth), CheckBelow(g, f, eventless, depth);
            && emits.Answer? && sets.Answer?
            && (MissesEvent(emits, sets, returnsValue, f in writers) <==>
                && (forall h :: Reachable(Calls(g), f, h) ==> h !in withEvents)
                && (exists h :: Reachable(Calls(g), f, h) && h in eventless)
                && (returnsValue ==> f in writers))
  {
    AcyclicAnswers(g, f, withEvents, depth);
    AcyclicAnswers(g, f, eventless, depth);
    AnswerIsReachability(g, f, withEvents, depth);
    AnswerIsReachability(g, f, eventless, depth);
  }

  // ----- set-contract-storage: the decision for one function that writes storage -----

  ghost predicate UnprotectedCaller(g: Graph, callee: FnId, caller: FnId, entryPoints: set<FnId>,
                                    authorized: set<FnId>) {
    caller in g && callee in g[caller] && caller in entryPoints && !Reaches(g, caller, authorized)
  }

  /** `callers` are the keys of the call graph in the order its hash map yields them. */
  method ReportsWrite(g: Graph, callers: seq<FnId>, callee: FnId, entryPoints: set<FnId>, authorized: set<FnId>)
    returns (report: bool)
    requires forall f :: f in callers <==> f in g
    ensures report <==>
            && !Reaches(g, callee, authorized)
            && (callee in entryPoints || exists caller :: UnprotectedCaller(g, callee, caller, entryPoints, authorized))
  {
    var protected := IsAuthReachable(callee, g, authorized);
    if protected {
      return false;
    }
    var calledByEntry, callersAuthorized := false, true;
    for i := 0 to |callers|
      invariant calledByEntry <==> exists j :: 0 <= j < i && callee in g[callers[j]] && callers[j] in entryPoints
      invariant callersAuthorized <==>
                forall j :: 0 <= j < i ==> !UnprotectedCaller(g, callee, callers[j], entryPoints, authorized)
    {
      var caller := callers[i];
      if callee in g[caller] {
        var isEntry := caller in entryPoints;
        calledByEntry := calledByEntry || isEntry;
        if callersAuthorized && isEntry {
          callersAuthorized := IsAuthReachable(caller, g, authorized);
        }
      }
    }
    return callee in entryPoints || (calledByEntry && !callersAuthorized);
  }
}
