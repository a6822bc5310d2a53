/** What the least solution of the summary equations loses: nothing without recursion, and with it only claims that
    other solutions hold, all of them true of every run. */
module AuthRecursion {
  import opened Options
  import opened Reachability
  import opened CallGraph
  import opened AuthFlow
  import opened AuthRuns
  import opened AuthSummaries

  // ----- every solution is true of every run -----

  /** A claim that the map itself justifies holds on every run that leaves the function. */
  lemma {:induction false} JustifiedClaimHolds(program: Program, summaries: Summaries, f: FnId, run: Run, b: nat,
                                               bit: Bit)
    requires WellFormedProgram(program) && Ascending(program, summaries) && f in summaries && summaries[f].Has(bit)
    requires IsRun(program, f, run, b) && IsSummaryExit(program[f].blocks[b].terminator)
    ensures Authorizes(program, f, run, b, bit) || BlockKills(program[f], b, bit)
    decreases run, 1
  {
    if !Authorizes(program, f, run, b, bit) {
      JustifiedRunSurvives(program, summaries, f, run, b, bit);
      SummaryOfMeaning(program[f], summaries);
      assert MustAuth(program[f], summaries, bit);
      assert MayReach(program[f], summaries, b, bit);
    }
  }

  /** A run that has not authorized a bit follows a path on which the bit survives. */
  lemma {:induction false} JustifiedRunSurvives(program: Program, summaries: Summaries, f: FnId, run: Run, b: nat,
                                                bit: Bit)
    requires WellFormedProgram(program) && Ascending(program, summaries)
    requires IsRun(program, f, run, b) && !Authorizes(program, f, run, b, bit)
    ensures PathTo(program[f], PathOf(run), b) && Survives(program[f], summaries, PathOf(run), bit)
    decreases run, 0
  {
    if run.Step? {
      var body := program[f];
      JustifiedRunSurvives(program, summaries, f, run.prefix, run.from, bit);
      TakenEdgeIsLive(body.blocks[run.from], run.trail, run.edge);
      if run.edge.viaReturn && CallKills(body, summaries, run.from, bit) {
        var site := body.callSites[run.from];
        var inner :| HandsOver(site, inner, bit) && summaries[site.callee].Has(inner);
        JustifiedClaimHolds(program, summaries, site.callee, run.callee.run, run.callee.exit, inner);
      }
    }
  }

  /** Every solution of the summary equations, not only the least one, is true of every run. */
  lemma EverySolutionIsSound(program: Program, summaries: Summaries)
    requires WellFormedProgram(program) && Fixpoint(program, summaries)
    ensures Sound(program, summaries)
  {
    forall f, run, b: nat, bit | f in summaries && summaries[f].Has(bit) && IsRun(program, f, run, b) &&
      IsSummaryExit(program[f].blocks[b].terminator)
      ensures Authorizes(program, f, run, b, bit) || BlockKills(program[f], b, bit)
    {
      JustifiedClaimHolds(program, summaries, f, run, b, bit);
    }
  }

  // ----- without recursion there is one solution -----

  ghost predicate CallsSomewhere(body: Body, h: FnId) {
    exists b: nat :: b in body.callSites && body.callSites[b].callee == h
  }

  /** One function of the program calls another. */
  ghost function SiteCalls(program: Program): (FnId, FnId) -> bool {
    (f, h) => f in program && h in program && CallsSomewhere(program[f], h)
  }

  ghost function FunctionsBelow(program: Program, f: FnId): set<FnId>
    requires f in program
    ensures forall h :: h in FunctionsBelow(program, f) <==> Reachable(SiteCalls(program), f, h)
  {
    forall h | Reachable(SiteCalls(program), f, h) ensures h in program {
      ClosedSetHolds(SiteCalls(program), program.Keys, f, h);
    }
    set h | h in program && Reachable(SiteCalls(program), f, h)
  }

  /** Where no call cycle can be reached, all solutions agree: the least one loses nothing. */
  lemma {:induction false} NoRecursionOneSolution(program: Program, a: Summaries, b: Summaries, f: FnId)
    requires Fixpoint(program, a) && Fixpoint(program, b) && a.Keys == b.Keys && f in a
    requires Acyclic(SiteCalls(program), f)
    ensures a[f] == b[f]
    decreases |FunctionsBelow(program, f)|
  {
    forall block: nat | block in program[f].callSites && program[f].callSites[block].callee in a
      ensures a[program[f].callSites[block].callee] == b[program[f].callSites[block].callee]
    {
      var h := program[f].callSites[block].callee;
      CalleeReachesLess(SiteCalls(program), f, h, FunctionsBelow(program, f), FunctionsBelow(program, h));
      NoRecursionOneSolution(program, a, b, h);
    }
    SummaryDependsOnCallees(program, a, b, f);
  }

  // ----- with recursion a claim can be lost -----

  /** Authorizes its parameter in one branch, and calls itself with it in the other. The branch depends on a
      local with no known constant. */
  function RecursiveBody(): Body {
    Body([true],
         [BlockData([], Switch(PlaceOperand(Place(1, false)), [(0, 1)], 2)),
          BlockData([], Call([3], None)),
          BlockData([], Jump([3])),
          BlockData([], Return)],
         [0],
         map[Location(2, 0) := [AuthEvent(Some(0), false)]],
         map[1 := CallSite(0, [Some(0)])],
         map[])
  }

  lemma RecursiveEdges()
    ensures Edge(1, false) in LiveEdges(RecursiveBody().blocks[0])
    ensures Edge(3, true) in LiveEdges(RecursiveBody().blocks[1])
  {
    var first, second := RecursiveBody().blocks[0], RecursiveBody().blocks[1];
    assert LastConst(first.statements, 1) == None && ConstSwitchTarget(first) == None;
    assert Successors(first.terminator)[0] == 1;
    assert LiveEdges(first)[0] == Edge(1, false);
    assert LiveEdges(second)[0] == Edge(3, true);
  }

  /** The least solution claims nothing of this function. */
  lemma RecursionIsNotCredited()
    ensures var program: Program, none: Summaries := map[0 := RecursiveBody()], map[0 := FnSummary({}, false)];
            LeastFixpoint(program, none)
  {
    var body := RecursiveBody();
    var program: Program, none: Summaries := map[0 := body], map[0 := FnSummary({}, false)];
    RecursiveEdges();
    var path := Via(Via(AtStart, 0, Edge(1, false)), 1, Edge(3, true));
    assert PathTo(body, AtStart, 0) && PathTo(body, path.prefix, 1) && PathTo(body, path, 3);
    SummaryOfMeaning(body, none);
    forall bit
      ensures !SummaryOf(body, none).Has(bit)
    {
      if Initial(body, bit) {
        assert !CallKills(body, none, 1, bit);
        assert Survives(body, none, path, bit);
        assert MayReach(body, none, 3, bit);
        assert IsSummaryExit(body.blocks[3].terminator) && !BlockKills(body, 3, bit);
        assert EscapesUnauthorized(body, none, bit);
      }
    }
    SummariesEqual(SummaryOf(body, none), FnSummary({}, false));
  }

  /** Yet no run of it returns without authorizing its parameter. */
  lemma {:induction false} RecursionAuthorizes(run: Run, b: nat)
    requires IsRun(map[0 := RecursiveBody()], 0, run, b) && b == 3
    ensures Authorizes(map[0 := RecursiveBody()], 0, run, b, Param(0))
    decreases run
  {
    var body := RecursiveBody();
    var edge := run.edge;
    assert edge.target == 3 && EdgeTaken(body.blocks[run.from], run.trail[|run.trail| - 1], edge);
    if run.from == 1 {
      assert body.blocks[1].terminator == Call([3], None);
      assert body.blocks[run.callee.exit].terminator.Return?;
      RecursionAuthorizes(run.callee.run, run.callee.exit);
      assert HandsOver(body.callSites[1], Param(0), Param(0));
    } else {
      assert run.from == 2;
      assert AuthEvent(Some(0), false) in body.events[Location(2, 0)];
      assert LocationKills(body, Location(2, 0), Param(0));
      assert BlockKills(body, 2, Param(0));
    }
  }

  // ----- but recursion need not lose anything -----

  /** The same function, authorizing first. */
  function EarlyBody(): Body {
    RecursiveBody().(events := map[Location(0, 0) := [AuthEvent(Some(0), true)]])
  }

  lemma StartKills(bit: Bit)
    requires Initial(EarlyBody(), bit)
    ensures BlockKills(EarlyBody(), 0, bit)
  {
    assert AuthEvent(Some(0), true) in EarlyBody().events[Location(0, 0)];
    assert LocationKills(EarlyBody(), Location(0, 0), bit);
  }

  lemma {:induction false} NothingSurvivesTheStart(summaries: Summaries, path: Path, b: nat, bit: Bit)
    requires PathTo(EarlyBody(), path, b) && Initial(EarlyBody(), bit) && Survives(EarlyBody(), summaries, path, bit)
    ensures path.AtStart?
  {
    if path.Via? {
      StartKills(bit);
      NothingSurvivesTheStart(summaries, path.prefix, path.from, bit);
    }
  }

  /** A call cycle does not make solutions differ: this function, which calls itself, has only one. */
  lemma RecursionMayLoseNothing(a: Summaries, b: Summaries)
    requires a.Keys == b.Keys == {0}
    requires Fixpoint(map[0 := EarlyBody()], a) && Fixpoint(map[0 := EarlyBody()], b)
    ensures a == b
  {
    forall s: Summaries, bit
      ensures SummaryOf(EarlyBody(), s).Has(bit) <==> Initial(EarlyBody(), bit)
    {
      SummaryOfMeaning(EarlyBody(), s);
      if EscapesUnauthorized(EarlyBody(), s, bit) {
        var block: nat :| block < |EarlyBody().blocks| && IsSummaryExit(EarlyBody().blocks[block].terminator) &&
                          MayReach(EarlyBody(), s, block, bit);
        var path :| PathTo(EarlyBody(), path, block) && Survives(EarlyBody(), s, path, bit);
        NothingSurvivesTheStart(s, path, block, bit);
      }
    }
    SummariesEqual(a[0], b[0]);
  }
}
