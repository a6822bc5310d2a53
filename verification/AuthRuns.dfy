/** Runs of a program, with stores, pruned switches and nested calls, and the proof that
    summaries and reports speak about every run. */
module AuthRuns {
  import opened Options
  import opened CallGraph
  import opened AuthFlow
  import opened AuthEngine

  type Program = map<FnId, Body>

  /** Values of the initialized locals. */
  type Store = map<nat, nat>

  /** Writes through a projection change nothing but the named local. */
  ghost predicate StatementStep(stmt: Statement, s: Store, s': Store) {
    match stmt
    case Assign(Place(l, false), Use(Constant(Some(v)))) => s' == s[l := v]
    case Assign(Place(l, _), _) => s' - {l} == s - {l}
    case OtherStatement => s' == s
  }

  /** The stores between the statements of a list, first to last. */
  ghost predicate IsTrail(statements: seq<Statement>, trail: seq<Store>) {
    && |trail| == |statements| + 1
    && forall i :: 0 <= i < |statements| ==> StatementStep(statements[i], trail[i], trail[i + 1])
  }

  // ----- constant switches drop no feasible edge -----

  /** No projected write to `local` follows its last whole assignment. */
  predicate NoLateProjection(statements: seq<Statement>, local: nat) {
    if statements == [] then true
    else
      var n := |statements| - 1;
      match statements[n]
      case Assign(Place(l, projected), _) =>
        if l == local then !projected else NoLateProjection(statements[..n], local)
      case OtherStatement => NoLateProjection(statements[..n], local)
  }

  lemma {:induction false} LastConstHolds(statements: seq<Statement>, local: nat, trail: seq<Store>)
    requires IsTrail(statements, trail) && NoLateProjection(statements, local)
    requires LastConst(statements, local).Some?
    ensures local in trail[|statements|] && trail[|statements|][local] == LastConst(statements, local).value
  {
    var n := |statements| - 1;
    var last := statements[n];
    assert StatementStep(last, trail[n], trail[n + 1]);
    if last.Assign? && last.lhs.local == local {
      assert last == Assign(Place(local, false), Use(Constant(LastConst(statements, local))));
    } else {
      LastConstHolds(statements[..n], local, trail[..n + 1]);
      assert trail[n] == trail[..n + 1][n];
      if last.Assign? {
        assert local in trail[n] - {last.lhs.local};
        assert local in trail[n + 1] - {last.lhs.local};
      }
    }
  }

  /** A late projected write can leave any value in the local. */
  lemma {:induction false} LateProjectionIsFree(statements: seq<Statement>, local: nat, value: nat)
      returns (trail: seq<Store>)
    ensures IsTrail(statements, trail)
    ensures !NoLateProjection(statements, local) ==> local in trail[|statements|] && trail[|statements|][local] == value
  {
    if statements == [] {
      return [map[]];
    }
    var n := |statements| - 1;
    var front := LateProjectionIsFree(statements[..n], local, value);
    var s := front[n];
    var s' := match statements[n]
      case Assign(Place(l, false), Use(Constant(Some(v)))) => s[l := v]
      case Assign(Place(l, _), _) => s[l := value]
      case OtherStatement => s;
    if statements[n].Assign? {
      var l := statements[n].lhs.local;
      assert s[l := value] - {l} == s - {l};
    }
    trail := front + [s'];
    forall i | 0 <= i < |statements|
      ensures StatementStep(statements[i], trail[i], trail[i + 1])
    {
      if i < n {
        assert StatementStep(statements[..n][i], front[i], front[i + 1]);
      }
    }
  }

  /** Where the switch goes in a given store. */
  ghost predicate SwitchGoes(block: BlockData, store: Store, target: nat)
    requires block.terminator.Switch?
  {
    var Switch(discr, cases, otherwise) := block.terminator;
    match discr
    case ConstOperand(Constant(Some(v))) => GoesTo(cases, otherwise, v, target)
    case PlaceOperand(Place(l, false)) => l in store && GoesTo(cases, otherwise, store[l], target)
    case _ => IsTarget(cases, otherwise, target)
  }

  /** The first case with the value, or the default if there is none. */
  ghost predicate GoesTo(cases: seq<(nat, nat)>, otherwise: nat, v: nat, target: nat) {
    || (target == otherwise && forall i :: 0 <= i < |cases| ==> cases[i].0 != v)
    || exists i :: 0 <= i < |cases| && cases[i] == (v, target) && forall j :: 0 <= j < i ==> cases[j].0 != v
  }

  ghost predicate IsTarget(cases: seq<(nat, nat)>, otherwise: nat, target: nat) {
    target == otherwise || exists i :: 0 <= i < |cases| && cases[i].1 == target
  }

  /** The lookup goes to the first case with the value. */
  lemma {:induction false} TargetForValueIsFirst(cases: seq<(nat, nat)>, otherwise: nat, v: nat, target: nat)
    ensures GoesTo(cases, otherwise, v, target) <==> target == TargetForValue(cases, otherwise, v)
  {
    if cases != [] && cases[0].0 != v {
      TargetForValueIsFirst(cases[1..], otherwise, v, target);
      if i :| 0 <= i < |cases| && cases[i] == (v, target) && forall j :: 0 <= j < i ==> cases[j].0 != v {
        assert cases[1..][i - 1] == (v, target);
      }
      if i :| (0 <= i < |cases| - 1 && cases[1..][i] == (v, target) &&
               forall j :: 0 <= j < i ==> cases[1..][j].0 != v) {
        assert cases[i + 1] == (v, target);
        forall j | 0 <= j < i + 1 ensures cases[j].0 != v {
          assert j > 0 ==> cases[1..][j - 1] == cases[j];
        }
      }
    }
  }

  /** The switch local is never written through a projection: integers and booleans have none. */
  predicate WellTypedSwitch(block: BlockData) {
    block.terminator.Switch? && block.terminator.discr.PlaceOperand? && !block.terminator.discr.place.projected ==>
      NoLateProjection(block.statements, block.terminator.discr.place.local)
  }

  /** On a well-typed block the pruned switch goes where every execution of the block goes. */
  lemma PruningIsSound(block: BlockData, trail: seq<Store>, target: nat)
    requires block.terminator.Switch? && WellTypedSwitch(block) && ConstSwitchTarget(block).Some?
    requires IsTrail(block.statements, trail) && SwitchGoes(block, trail[|block.statements|], target)
    ensures target == ConstSwitchTarget(block).value
  {
    var Switch(discr, cases, otherwise) := block.terminator;
    forall v: nat ensures GoesTo(cases, otherwise, v, target) <==> target == TargetForValue(cases, otherwise, v) {
      TargetForValueIsFirst(cases, otherwise, v, target);
    }
    if block.terminator.discr.PlaceOperand? {
      LastConstHolds(block.statements, block.terminator.discr.place.local, trail);
    }
  }

  /** Every execution of the block leaves the switch along the one edge that pruning keeps. */
  ghost predicate DropsNoEdge(block: BlockData)
    requires block.terminator.Switch? && ConstSwitchTarget(block).Some?
  {
    forall trail, target :: IsTrail(block.statements, trail) && SwitchGoes(block, trail[|block.statements|], target) ==>
      target == ConstSwitchTarget(block).value
  }

  /** The switch goes to one place whatever the value. */
  ghost predicate SameTargetAlways(block: BlockData)
    requires block.terminator.Switch? && ConstSwitchTarget(block).Some?
  {
    forall v: nat :: TargetForValue(block.terminator.cases, block.terminator.otherwise, v) ==
        ConstSwitchTarget(block).value
  }

  /** Pruning on a local drops no feasible edge exactly when no projected write follows the last
      whole assignment, or the switch goes to one place whatever the value. */
  lemma PruningIsExact(block: BlockData, local: nat)
    requires block.terminator.Switch? && block.terminator.discr == PlaceOperand(Place(local, false))
    requires ConstSwitchTarget(block).Some?
    ensures DropsNoEdge(block) <==>
            (|| NoLateProjection(block.statements, local)
             || SameTargetAlways(block))
  {
    var Switch(_, cases, otherwise) := block.terminator;
    if NoLateProjection(block.statements, local) {
      forall trail, target | IsTrail(block.statements, trail) && SwitchGoes(block, trail[|block.statements|], target)
        ensures target == ConstSwitchTarget(block).value
      {
        PruningIsSound(block, trail, target);
      }
    } else if SameTargetAlways(block) {
      forall store, target | SwitchGoes(block, store, target)
        ensures target == ConstSwitchTarget(block).value
      {
        TargetForValueIsFirst(cases, otherwise, store[local], target);
      }
    } else {
      var v: nat :| TargetForValue(cases, otherwise, v) != ConstSwitchTarget(block).value;
      var trail := LateProjectionIsFree(block.statements, local, v);
      var target := TargetForValue(cases, otherwise, v);
      TargetForValueIsFirst(cases, otherwise, v, target);
      assert SwitchGoes(block, trail[|block.statements|], target);
    }
  }

  // ----- runs -----

  /** A run of a function up to the entry of a block. On a return edge out of a block that calls a
      function of the program, the callee's completed run is part of it. */
  datatype Run = Enter | Step(prefix: Run, from: nat, trail: seq<Store>, edge: Edge, callee: CalleeRun)
  datatype CalleeRun = NoCall | Completed(run: Run, exit: nat)

  ghost predicate EdgeTaken(block: BlockData, store: Store, edge: Edge) {
    match block.terminator
    case Return => false
    case Stop => false
    case Jump(targets) => !edge.viaReturn && edge.target in targets
    case Switch(_, _, _) => !edge.viaReturn && SwitchGoes(block, store, edge.target)
    case Call(returnTo, cleanup) => if edge.viaReturn then edge.target in returnTo else cleanup == Some(edge.target)
  }

  /** The block returns to a known callee along this edge. */
  predicate ReturnsFromCall(program: Program, body: Body, from: nat, edge: Edge) {
    edge.viaReturn && from in body.callSites && body.callSites[from].callee in program
  }

  ghost predicate IsRun(program: Program, f: FnId, run: Run, b: nat)
    decreases run
  {
    && f in program && b < |program[f].blocks|
    && match run
       case Enter => b == 0
       case Step(prefix, from, trail, edge, callee) =>
         && IsRun(program, f, prefix, from)
         && IsTrail(program[f].blocks[from].statements, trail)
         && EdgeTaken(program[f].blocks[from], trail[|trail| - 1], edge) && edge.target == b
         && (ReturnsFromCall(program, program[f], from, edge) ==>
               callee.Completed? && IsRun(program, program[f].callSites[from].callee, callee.run, callee.exit) &&
               program[program[f].callSites[from].callee].blocks[callee.exit].terminator.Return?)
  }

  /** The run authorizes `bit` itself, or in a callee that received it. */
  ghost predicate Authorizes(program: Program, f: FnId, run: Run, b: nat, bit: Bit)
    requires IsRun(program, f, run, b)
    decreases run
  {
    match run
    case Enter => false
    case Step(prefix, from, trail, edge, callee) =>
      || Authorizes(program, f, prefix, from, bit)
      || BlockKills(program[f], from, bit)
      || (ReturnsFromCall(program, program[f], from, edge) &&
          var site := program[f].callSites[from];
          exists inner :: HandsOver(site, inner, bit) &&
            (Authorizes(program, site.callee, callee.run, callee.exit, inner) ||
             BlockKills(program[site.callee], callee.exit, inner)))
  }

  /** What a summary promises: every run that leaves the function has authorized the bit. */
  ghost predicate Sound(program: Program, summaries: Summaries) {
    && summaries.Keys <= program.Keys
    && forall f, run, b: nat, bit ::
         (f in summaries && summaries[f].Has(bit) && IsRun(program, f, run, b) &&
          IsSummaryExit(program[f].blocks[b].terminator)) ==>
           Authorizes(program, f, run, b, bit) || BlockKills(program[f], b, bit)
  }

  ghost predicate WellFormedProgram(program: Program) {
    forall f :: f in program ==>
      WellFormed(program[f]) && SinksInBody(program[f]) &&
      forall b: nat :: b < |program[f].blocks| ==> WellTypedSwitch(program[f].blocks[b])
  }

  function PathOf(run: Run): Path {
    match run
    case Enter => AtStart
    case Step(prefix, from, _, edge, _) => Via(PathOf(prefix), from, edge)
  }

  lemma SwitchGoesToTarget(block: BlockData, store: Store, target: nat)
    requires block.terminator.Switch? && SwitchGoes(block, store, target)
    ensures IsTarget(block.terminator.cases, block.terminator.otherwise, target)
  {
  }

  lemma TakenEdgeIsLive(block: BlockData, trail: seq<Store>, edge: Edge)
    requires WellTypedSwitch(block) && IsTrail(block.statements, trail) && EdgeTaken(block, trail[|trail| - 1], edge)
    ensures edge in LiveEdges(block)
  {
    var live := LiveEdges(block);
    match block.terminator
    case Switch(_, _, _) =>
      if ConstSwitchTarget(block).Some? {
        PruningIsSound(block, trail, edge.target);
        assert live[0] == edge;
      } else {
        var Switch(_, cases, otherwise) := block.terminator;
        SwitchGoesToTarget(block, trail[|trail| - 1], edge.target);
        assert live[|cases|].target == otherwise;
        if i :| 0 <= i < |cases| && cases[i].1 == edge.target {
          assert live[i] == edge;
        }
      }
    case Call(returnTo, cleanup) =>
      var k := if cleanup.Some? then 1 else 0;
      if edge.viaReturn {
        var i :| 0 <= i < |returnTo| && returnTo[i] == edge.target;
        assert live[k + i] == edge;
      } else {
        assert live[0] == edge;
      }
    case Jump(targets) =>
      var i :| 0 <= i < |live| && targets[i] == edge.target;
      assert live[i] == edge;
    case _ =>
  }

  /** A run that has not authorized a bit follows a path on which the bit survives. */
  lemma {:induction false} RunFollowsPath(program: Program, summaries: Summaries, f: FnId, run: Run, b: nat, bit: Bit)
    requires WellFormedProgram(program) && Sound(program, summaries)
    requires IsRun(program, f, run, b) && !Authorizes(program, f, run, b, bit)
    ensures PathTo(program[f], PathOf(run), b) && Survives(program[f], summaries, PathOf(run), bit)
  {
    if run.Step? {
      var body := program[f];
      RunFollowsPath(program, summaries, f, run.prefix, run.from, bit);
      TakenEdgeIsLive(body.blocks[run.from], run.trail, run.edge);
    }
  }

  /** Sound summaries of the callees give a sound summary of the caller. */
  lemma SummaryUpdateIsSound(program: Program, summaries: Summaries, f: FnId)
    requires WellFormedProgram(program) && Sound(program, summaries) && f in program
    ensures Sound(program, summaries[f := SummaryOf(program[f], summaries)])
  {
    var updated := summaries[f := SummaryOf(program[f], summaries)];
    SummaryOfMeaning(program[f], summaries);
    forall g, run, b: nat, bit | g in updated && updated[g].Has(bit) && IsRun(program, g, run, b) &&
      IsSummaryExit(program[g].blocks[b].terminator)
      ensures Authorizes(program, g, run, b, bit) || BlockKills(program[g], b, bit)
    {
      if g == f && !Authorizes(program, f, run, b, bit) {
        RunFollowsPath(program, summaries, f, run, b, bit);
        assert MustAuth(program[f], summaries, bit);
        assert MayReach(program[f], summaries, b, bit);
      }
    }
  }

  /** No false negative: on every run that comes to a sink that is not reported, the sink's
      parameter and the current admin have both been authorized before the sink. */
  lemma UnreportedSinkIsAuthorized(program: Program, summaries: Summaries, f: FnId, loc: Location, k: nat, run: Run,
                                   bit: Bit)
    requires WellFormedProgram(program) && Sound(program, summaries)
    requires f in program && loc in program[f].sinks && k < |program[f].sinks[loc]|
    requires program[f].sinks[loc][k].paramIndex.Some?
    requires bit == CurrentAdmin || bit == Param(program[f].sinks[loc][k].paramIndex.value)
    requires bit.Param? ==> bit.index < |program[f].isAddress| && program[f].isAddress[bit.index]
    requires !SinkReported(program[f], summaries, loc, k)
    requires IsRun(program, f, run, loc.block)
    ensures Authorizes(program, f, run, loc.block, bit) || KilledBefore(program[f], loc.block, loc.statementIndex, bit)
  {
    if !Authorizes(program, f, run, loc.block, bit) {
      RunFollowsPath(program, summaries, f, run, loc.block, bit);
      assert MayReach(program[f], summaries, loc.block, bit);
    }
  }
}
