/** The greatest solution of the summary equations: what every path through a function and its callees authorizes. */
module AuthPaths {
  import opened Options
  import opened CallGraph
  import opened AuthFlow
  import opened AuthRuns
  import opened AuthSummaries

  // ----- paths through calls -----

  /** A path of a function up to the entry of a block. On a return edge out of a block that calls one of the
      functions, a path of the callee up to one of its exits is part of it. */
  datatype CallPath = Begin | Along(prefix: CallPath, from: nat, edge: Edge, inner: InnerPath)
  datatype InnerPath = Plain | Through(path: CallPath, exit: nat)

  predicate CallsInto(functions: set<FnId>, body: Body, from: nat, edge: Edge) {
    edge.viaReturn && from in body.callSites && body.callSites[from].callee in functions
  }

  ghost predicate IsCallPath(program: Program, functions: set<FnId>, f: FnId, path: CallPath, b: nat)
    decreases path, 0
  {
    && f in program && b < |program[f].blocks|
    && match path
       case Begin => b == 0
       case Along(prefix, from, edge, inner) =>
         && IsCallPath(program, functions, f, prefix, from)
         && edge in LiveEdges(program[f].blocks[from]) && edge.target == b
         && (CallsInto(functions, program[f], from, edge) ==>
               inner.Through? &&
               IsCallPath(program, functions, program[f].callSites[from].callee, inner.path, inner.exit) &&
               IsSummaryExit(program[program[f].callSites[from].callee].blocks[inner.exit].terminator))
  }

  /** A path through the whole function. */
  ghost predicate IsExitPath(program: Program, functions: set<FnId>, f: FnId, path: CallPath, b: nat) {
    IsCallPath(program, functions, f, path, b) && IsSummaryExit(program[f].blocks[b].terminator)
  }

  /** The path authorizes `bit` before block `b`, itself or in a callee that received it. */
  ghost predicate AuthorizesBefore(program: Program, functions: set<FnId>, f: FnId, path: CallPath, b: nat, bit: Bit)
    requires IsCallPath(program, functions, f, path, b)
    decreases path, 0
  {
    match path
    case Begin => false
    case Along(prefix, from, edge, inner) =>
      || AuthorizesBefore(program, functions, f, prefix, from, bit)
      || BlockKills(program[f], from, bit)
      || (CallsInto(functions, program[f], from, edge) &&
          var site := program[f].callSites[from];
          exists handed :: HandsOver(site, handed, bit) &&
            AuthorizesThrough(program, functions, site.callee, inner.path, inner.exit, handed))
  }

  /** The same, with the last block. */
  ghost predicate AuthorizesThrough(program: Program, functions: set<FnId>, f: FnId, path: CallPath, b: nat, bit: Bit)
    requires IsCallPath(program, functions, f, path, b)
    decreases path, 1
  {
    AuthorizesBefore(program, functions, f, path, b, bit) || BlockKills(program[f], b, bit)
  }

  ghost predicate OnEveryPath(program: Program, functions: set<FnId>, f: FnId, bit: Bit)
    requires f in program
  {
    && Initial(program[f], bit)
    && forall path, b: nat :: IsExitPath(program, functions, f, path, b) ==>
         AuthorizesThrough(program, functions, f, path, b, bit)
  }

  /** For each function, what all paths through it authorize. */
  ghost function PathSummaries(program: Program, functions: set<FnId>): (s: Summaries)
    requires functions <= program.Keys
  {
    map f | f in functions ::
      FnSummary((set i | i in AddressParams(program[f]) && OnEveryPath(program, functions, f, Param(i))),
                OnEveryPath(program, functions, f, CurrentAdmin))
  }

  lemma PathSummariesMeaning(program: Program, functions: set<FnId>, f: FnId)
    requires functions <= program.Keys && f in functions
    ensures forall bit :: PathSummaries(program, functions)[f].Has(bit) <==> OnEveryPath(program, functions, f, bit)
  {
  }

  function Flat(path: CallPath): Path {
    match path
    case Begin => AtStart
    case Along(prefix, from, edge, _) => Via(Flat(prefix), from, edge)
  }

  // ----- no solution claims more -----

  lemma {:induction false} ClaimIsOnPath(program: Program, s: Summaries, f: FnId, path: CallPath, b: nat, bit: Bit)
    requires Ascending(program, s) && f in s && s[f].Has(bit) && IsExitPath(program, s.Keys, f, path, b)
    ensures AuthorizesThrough(program, s.Keys, f, path, b, bit)
    decreases path, 1
  {
    if !AuthorizesBefore(program, s.Keys, f, path, b, bit) {
      UnauthorizedSurvives(program, s, f, path, b, bit);
      SummaryOfMeaning(program[f], s);
      assert MustAuth(program[f], s, bit);
      assert MayReach(program[f], s, b, bit);
    }
  }

  /** On a path that does not authorize it, a bit survives. */
  lemma {:induction false} UnauthorizedSurvives(program: Program, s: Summaries, f: FnId, path: CallPath, b: nat,
                                                bit: Bit)
    requires Ascending(program, s)
    requires IsCallPath(program, s.Keys, f, path, b) && !AuthorizesBefore(program, s.Keys, f, path, b, bit)
    ensures PathTo(program[f], Flat(path), b) && Survives(program[f], s, Flat(path), bit)
    decreases path, 0
  {
    if path.Along? {
      var body := program[f];
      UnauthorizedSurvives(program, s, f, path.prefix, path.from, bit);
      if path.edge.viaReturn && CallKills(body, s, path.from, bit) {
        var site := body.callSites[path.from];
        var handed :| HandsOver(site, handed, bit) && s[site.callee].Has(handed);
        ClaimIsOnPath(program, s, site.callee, path.inner.path, path.inner.exit, handed);
      }
    }
  }

  /** Whatever a solution claims, every path authorizes. */
  lemma NoSolutionClaimsMore(program: Program, s: Summaries)
    requires Fixpoint(program, s)
    ensures Le(s, PathSummaries(program, s.Keys))
  {
    forall f, bit | f in s && s[f].Has(bit)
      ensures PathSummaries(program, s.Keys)[f].Has(bit)
    {
      SummaryOfMeaning(program[f], s);
      PathSummariesMeaning(program, s.Keys, f);
      forall path, b: nat | IsExitPath(program, s.Keys, f, path, b)
        ensures AuthorizesThrough(program, s.Keys, f, path, b, bit)
      {
        ClaimIsOnPath(program, s, f, path, b, bit);
      }
    }
  }

  // ----- the path summaries are a solution -----

  /** Every function has a path through it. */
  ghost predicate AllCanEnd(program: Program, functions: set<FnId>) {
    forall f :: f in functions ==> exists path, b: nat :: IsExitPath(program, functions, f, path, b)
  }

  /** A call site hands an address over once, to an address parameter. */
  ghost predicate HandsOverOnce(program: Program, functions: set<FnId>) {
    forall f, b: nat, i: nat, k: nat ::
      (f in functions && f in program && b in program[f].callSites && program[f].callSites[b].callee in functions &&
       program[f].callSites[b].callee in program && Initial(program[f], Param(i)) &&
       HandsOver(program[f].callSites[b], Param(k), Param(i))) ==>
        Initial(program[program[f].callSites[b].callee], Param(k)) &&
        forall m: nat :: HandsOver(program[f].callSites[b], Param(m), Param(i)) ==> m == k
  }

  lemma HandedIsOne(program: Program, functions: set<FnId>, f: FnId, b: nat, handed: Bit, bit: Bit)
    requires functions <= program.Keys && HandsOverOnce(program, functions) && f in functions
    requires b in program[f].callSites && program[f].callSites[b].callee in functions
    requires Initial(program[f], bit) && HandsOver(program[f].callSites[b], handed, bit)
    ensures Initial(program[program[f].callSites[b].callee], handed)
    ensures forall other :: HandsOver(program[f].callSites[b], other, bit) ==> other == handed
  {
    if bit.Param? {
      var i, k := bit.index, handed.index;
      assert HandsOver(program[f].callSites[b], Param(k), Param(i));
    }
  }

  /** A path of the callee that authorizes nothing of `bit`, if its path summary does not. */
  lemma InnerPathFor(program: Program, functions: set<FnId>, f: FnId, from: nat, bit: Bit) returns (inner: InnerPath)
    requires functions <= program.Keys && AllCanEnd(program, functions) && HandsOverOnce(program, functions)
    requires f in functions && Initial(program[f], bit)
    requires from in program[f].callSites && program[f].callSites[from].callee in functions
    requires !CallKills(program[f], PathSummaries(program, functions), from, bit)
    ensures inner.Through? && IsExitPath(program, functions, program[f].callSites[from].callee, inner.path, inner.exit)
    ensures forall handed :: HandsOver(program[f].callSites[from], handed, bit) ==>
              !AuthorizesThrough(program, functions, program[f].callSites[from].callee, inner.path, inner.exit, handed)
  {
    var site := program[f].callSites[from];
    if handed :| HandsOver(site, handed, bit) {
      HandedIsOne(program, functions, f, from, handed, bit);
      PathSummariesMeaning(program, functions, site.callee);
      assert !PathSummaries(program, functions)[site.callee].Has(handed);
      var path, exit: nat :| IsExitPath(program, functions, site.callee, path, exit) &&
        !AuthorizesThrough(program, functions, site.callee, path, exit, handed);
      inner := Through(path, exit);
    } else {
      var path, exit: nat :| IsExitPath(program, functions, site.callee, path, exit);
      inner := Through(path, exit);
    }
  }

  /** A path on which a bit survives the path summaries is part of a path through calls that does not authorize it. */
  lemma {:induction false} SurvivorIsOnPath(program: Program, functions: set<FnId>, f: FnId, path: Path, b: nat,
                                            bit: Bit)
    returns (full: CallPath)
    requires functions <= program.Keys && AllCanEnd(program, functions) && HandsOverOnce(program, functions)
    requires f in functions && Initial(program[f], bit) && b < |program[f].blocks|
    requires PathTo(program[f], path, b) && Survives(program[f], PathSummaries(program, functions), path, bit)
    ensures IsCallPath(program, functions, f, full, b) && !AuthorizesBefore(program, functions, f, full, b, bit)
  {
    if path.AtStart? {
      return Begin;
    }
    var prefix := SurvivorIsOnPath(program, functions, f, path.prefix, path.from, bit);
    var inner := Plain;
    if CallsInto(functions, program[f], path.from, path.edge) {
      inner := InnerPathFor(program, functions, f, path.from, bit);
    }
    full := Along(prefix, path.from, path.edge, inner);
  }

  lemma PathSummariesAscend(program: Program, functions: set<FnId>)
    requires functions <= program.Keys && AllCanEnd(program, functions) && HandsOverOnce(program, functions)
    ensures Ascending(program, PathSummaries(program, functions))
  {
    var top := PathSummaries(program, functions);
    forall f, bit | f in top && top[f].Has(bit)
      ensures SummaryOf(program[f], top).Has(bit)
    {
      PathSummariesMeaning(program, functions, f);
      SummaryOfMeaning(program[f], top);
      if EscapesUnauthorized(program[f], top, bit) {
        var b: nat :| b < |program[f].blocks| && IsSummaryExit(program[f].blocks[b].terminator) &&
                      MayReach(program[f], top, b, bit) && !BlockKills(program[f], b, bit);
        var path :| PathTo(program[f], path, b) && Survives(program[f], top, path, bit);
        var full := SurvivorIsOnPath(program, functions, f, path, b, bit);
        assert IsExitPath(program, functions, f, full, b);
      }
    }
  }

  /** Where every function can be left, and calls hand addresses over once and as addresses, the greatest solution
      claims exactly what every path through the function and its callees authorizes. The least solution loses the
      claims in which it differs. */
  lemma GreatestSolutionIsPaths(program: Program, functions: set<FnId>)
    requires functions <= program.Keys && AllCanEnd(program, functions) && HandsOverOnce(program, functions)
    ensures Fixpoint(program, PathSummaries(program, functions))
    ensures forall s :: Fixpoint(program, s) && s.Keys == functions ==> Le(s, PathSummaries(program, functions))
  {
    var top := PathSummaries(program, functions);
    PathSummariesAscend(program, functions);
    forall f | f in top
      ensures top[f] == SummaryOf(program[f], top)
    {
      forall bit | SummaryOf(program[f], top).Has(bit)
        ensures top[f].Has(bit)
      {
        RecomputedIsOnPaths(program, functions, f, bit);
      }
      SummariesEqual(top[f], SummaryOf(program[f], top));
    }
    forall s | Fixpoint(program, s) && s.Keys == functions
      ensures Le(s, top)
    {
      NoSolutionClaimsMore(program, s);
    }
  }

  lemma RecomputedIsOnPaths(program: Program, functions: set<FnId>, f: FnId, bit: Bit)
    requires functions <= program.Keys && f in functions && Ascending(program, PathSummaries(program, functions))
    requires SummaryOf(program[f], PathSummaries(program, functions)).Has(bit)
    ensures PathSummaries(program, functions)[f].Has(bit)
  {
    var top := PathSummaries(program, functions);
    assert top.Keys == functions;
    SummaryOfMeaning(program[f], top);
    PathSummariesMeaning(program, functions, f);
    forall path, b: nat | IsExitPath(program, functions, f, path, b)
      ensures AuthorizesThrough(program, functions, f, path, b, bit)
    {
      if !AuthorizesBefore(program, functions, f, path, b, bit) {
        UnauthorizedSurvives(program, top, f, path, b, bit);
        assert MayReach(program[f], top, b, bit);
      }
    }
  }

  // ----- an address handed over twice -----

  /** Calls function 1 with its parameter in both places. */
  function CallerBody(): Body {
    Body([true], [BlockData([], Call([1], None)), BlockData([], Return)], [0], map[],
         map[0 := CallSite(1, [Some(0), Some(0)])], map[])
  }

  /** Authorizes its first parameter in one branch and its second in the other. */
  function EitherBody(): Body {
    Body([true, true],
         [BlockData([], Switch(PlaceOperand(Place(2, false)), [(0, 1)], 2)),
          BlockData([], Jump([3])),
          BlockData([], Jump([3])),
          BlockData([], Return)],
         [0],
         map[Location(1, 0) := [AuthEvent(Some(0), false)], Location(2, 0) := [AuthEvent(Some(1), false)]],
         map[],
         map[])
  }

  function TwiceProgram(): Program {
    map[0 := CallerBody(), 1 := EitherBody()]
  }

  /** Each branch authorizes one parameter only. */
  lemma BranchKills(b: nat, bit: Bit)
    requires b < 4
    ensures BlockKills(EitherBody(), b, bit) <==> (b == 1 && bit == Param(0)) || (b == 2 && bit == Param(1))
  {
    var body := EitherBody();
    if b == 1 || b == 2 {
      assert AuthEvent(Some(b - 1), false) in body.events[Location(b, 0)];
      assert LocationKills(body, Location(b, 0), Param(b - 1));
    }
  }

  lemma EitherEdges(b: nat, edge: Edge)
    requires b < 4
    ensures edge in LiveEdges(EitherBody().blocks[b]) <==>
            (b == 0 && edge in {Edge(1, false), Edge(2, false)}) || (b in {1, 2} && edge == Edge(3, false))
  {
    var block := EitherBody().blocks[b];
    if b == 0 {
      assert LastConst(block.statements, 2) == None && ConstSwitchTarget(block) == None;
      assert Successors(block.terminator) == [1, 2];
      assert LiveEdges(block) == [Edge(1, false), Edge(2, false)];
    } else if b < 3 {
      assert LiveEdges(block) == [Edge(3, false)];
    }
  }

  /** So function 1 claims neither, in any solution. */
  lemma NeitherIsClaimed(s: Summaries, bit: Bit)
    requires Fixpoint(TwiceProgram(), s) && s.Keys == {0, 1} && bit.Param?
    ensures !s[1].Has(bit)
  {
    var body := EitherBody();
    var other := if bit == Param(0) then 2 else 1;
    SummaryOfMeaning(body, s);
    if Initial(body, bit) {
      EitherEdges(0, Edge(other, false));
      EitherEdges(other, Edge(3, false));
      BranchKills(0, bit);
      BranchKills(other, bit);
      BranchKills(3, bit);
      var path := Via(Via(AtStart, 0, Edge(other, false)), other, Edge(3, false));
      assert PathTo(body, AtStart, 0) && PathTo(body, path.prefix, other) && PathTo(body, path, 3);
      assert Survives(body, s, path.prefix, bit) && Survives(body, s, path, bit);
      assert MayReach(body, s, 3, bit) && IsSummaryExit(body.blocks[3].terminator);
    }
  }

  lemma CallerClaimsNothing(s: Summaries)
    requires Fixpoint(TwiceProgram(), s) && s.Keys == {0, 1}
    ensures !s[0].Has(Param(0))
  {
    var body, bit := CallerBody(), Param(0);
    SummaryOfMeaning(body, s);
    forall handed | HandsOver(body.callSites[0], handed, bit)
      ensures !s[1].Has(handed)
    {
      NeitherIsClaimed(s, handed);
    }
    var edge := Edge(1, true);
    assert LiveEdges(body.blocks[0]) == [edge];
    var path := Via(AtStart, 0, edge);
    assert PathTo(body, AtStart, 0) && PathTo(body, path, 1);
    assert Survives(body, s, AtStart, bit) && Survives(body, s, path, bit);
    assert MayReach(body, s, 1, bit) && IsSummaryExit(body.blocks[1].terminator) && !BlockKills(body, 1, bit);
  }

  lemma LastStep(program: Program, functions: set<FnId>, f: FnId, path: CallPath, b: nat)
    requires IsCallPath(program, functions, f, path, b) && path.Along?
    ensures path.from < |program[f].blocks| && path.edge in LiveEdges(program[f].blocks[path.from]) &&
        path.edge.target == b
    ensures CallsInto(functions, program[f], path.from, path.edge) ==>
              path.inner.Through? &&
              IsExitPath(program, functions, program[f].callSites[path.from].callee, path.inner.path, path.inner.exit)
  {
  }

  lemma BlockAuthorizes(program: Program, functions: set<FnId>, f: FnId, path: CallPath, b: nat, bit: Bit)
    requires IsCallPath(program, functions, f, path, b) && path.Along?
    requires path.from < |program[f].blocks| && BlockKills(program[f], path.from, bit)
    ensures AuthorizesThrough(program, functions, f, path, b, bit)
  {
  }

  lemma CallAuthorizes(program: Program, functions: set<FnId>, f: FnId, path: CallPath, b: nat, handed: Bit, bit: Bit)
    requires IsCallPath(program, functions, f, path, b) && path.Along?
    requires CallsInto(functions, program[f], path.from, path.edge)
    requires HandsOver(program[f].callSites[path.from], handed, bit) && path.inner.Through?
    requires IsExitPath(program, functions, program[f].callSites[path.from].callee, path.inner.path, path.inner.exit)
    requires AuthorizesThrough(program, functions, program[f].callSites[path.from].callee, path.inner.path,
                               path.inner.exit, handed)
    ensures AuthorizesThrough(program, functions, f, path, b, bit)
  {
  }

  /** Every path through function 1 authorizes one of its parameters. */
  lemma EitherIsAuthorized(path: CallPath, b: nat) returns (k: nat)
    requires IsExitPath(TwiceProgram(), {0, 1}, 1, path, b)
    ensures k < 2 && AuthorizesThrough(TwiceProgram(), {0, 1}, 1, path, b, Param(k))
  {
    assert b == 3 && path.Along?;
    LastStep(TwiceProgram(), {0, 1}, 1, path, b);
    EitherEdges(path.from, path.edge);
    k := path.from - 1;
    BranchKills(path.from, Param(k));
    BlockAuthorizes(TwiceProgram(), {0, 1}, 1, path, b, Param(k));
  }

  lemma CallerEdges(b: nat, edge: Edge)
    requires b < 2 && edge in LiveEdges(CallerBody().blocks[b])
    ensures b == 0 && edge == Edge(1, true)
  {
    assert LiveEdges(CallerBody().blocks[0]) == [Edge(1, true)] && LiveEdges(CallerBody().blocks[1]) == [];
  }

  lemma CallerIsAuthorized(path: CallPath, b: nat)
    requires IsExitPath(TwiceProgram(), {0, 1}, 0, path, b)
    ensures AuthorizesThrough(TwiceProgram(), {0, 1}, 0, path, b, Param(0))
  {
    assert b == 1 && path.Along?;
    LastStep(TwiceProgram(), {0, 1}, 0, path, b);
    CallerEdges(path.from, path.edge);
    var k := EitherIsAuthorized(path.inner.path, path.inner.exit);
    CallAuthorizes(TwiceProgram(), {0, 1}, 0, path, b, Param(k), Param(0));
  }

  /** If a call hands one address over twice, every path may authorize it while no solution claims so: the summaries
      speak about one parameter at a time. */
  lemma HandedOverTwice(s: Summaries)
    requires Fixpoint(TwiceProgram(), s) && s.Keys == {0, 1}
    ensures !s[0].Has(Param(0)) && OnEveryPath(TwiceProgram(), {0, 1}, 0, Param(0))
  {
    CallerClaimsNothing(s);
    forall path, b: nat | IsExitPath(TwiceProgram(), {0, 1}, 0, path, b)
      ensures AuthorizesThrough(TwiceProgram(), {0, 1}, 0, path, b, Param(0))
    {
      CallerIsAuthorized(path, b);
    }
  }
}
