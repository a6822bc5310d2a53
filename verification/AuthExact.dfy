/** The graph that the analysis follows is the graph that executions follow, and a report means a path. */
module AuthExact {
  import opened Options
  import opened AuthFlow
  import opened AuthEngine
  import opened AuthRuns

  // ----- every followed edge is taken by some execution -----

  ghost predicate DistinctCases(block: BlockData) {
    block.terminator.Switch? ==>
      forall i, j :: 0 <= i < j < |block.terminator.cases| ==>
          block.terminator.cases[i].0 != block.terminator.cases[j].0
  }

  ghost predicate TakenBySome(block: BlockData, edge: Edge) {
    exists trail :: IsTrail(block.statements, trail) && EdgeTaken(block, trail[|trail| - 1], edge)
  }

  /** A local that is not known to be constant can have any value after the statements. */
  lemma {:induction false} UnknownLocalIsFree(statements: seq<Statement>, local: nat, value: nat)
    returns (trail: seq<Store>)
    requires LastConst(statements, local).None?
    ensures IsTrail(statements, trail) && local in trail[|statements|] && trail[|statements|][local] == value
  {
    if statements == [] {
      return [map[local := value]];
    }
    var n := |statements| - 1;
    var last := statements[n];
    if last.Assign? && last.lhs == Place(local, false) {
      var front := LateProjectionIsFree(statements[..n], local, value);
      trail := OneMore(statements, front, front[n][local := value]);
    } else {
      var front := UnknownLocalIsFree(statements[..n], local, value);
      var s := front[n];
      var s' := match last
        case Assign(Place(l, false), Use(Constant(Some(v)))) => s[l := v]
        case _ => s;
      trail := OneMore(statements, front, s');
    }
  }

  lemma OneMore(statements: seq<Statement>, front: seq<Store>, s': Store) returns (trail: seq<Store>)
    requires statements != [] && IsTrail(statements[..|statements| - 1], front)
    requires StatementStep(statements[|statements| - 1], front[|statements| - 1], s')
    ensures IsTrail(statements, trail) && trail[|statements|] == s'
  {
    trail := front + [s'];
    var n := |statements| - 1;
    forall i | 0 <= i < |statements|
      ensures StatementStep(statements[i], trail[i], trail[i + 1])
    {
      if i < n {
        assert StatementStep(statements[..n][i], front[i], front[i + 1]);
      }
    }
  }

  /** A value no case has. */
  lemma {:induction false} FreshValue(cases: seq<(nat, nat)>) returns (v: nat)
    ensures forall i :: 0 <= i < |cases| ==> cases[i].0 < v
  {
    if cases == [] {
      return 0;
    }
    var rest := FreshValue(cases[..|cases| - 1]);
    var last := cases[|cases| - 1].0;
    v := if last < rest then rest else last + 1;
    forall i | 0 <= i < |cases| ensures cases[i].0 < v {
      assert i < |cases| - 1 ==> cases[..|cases| - 1][i] == cases[i];
    }
  }

  /** Each target of a switch is the one of some value. */
  lemma ValueFor(block: BlockData, target: nat) returns (v: nat)
    requires block.terminator.Switch? && DistinctCases(block)
    requires IsTarget(block.terminator.cases, block.terminator.otherwise, target)
    ensures GoesTo(block.terminator.cases, block.terminator.otherwise, v, target)
  {
    var cases := block.terminator.cases;
    if i :| 0 <= i < |cases| && cases[i].1 == target {
      v := cases[i].0;
      assert cases[i] == (v, target);
    } else {
      v := FreshValue(cases);
    }
  }

  lemma SwitchEdgeIsTaken(block: BlockData, edge: Edge)
    requires block.terminator.Switch? && WellTypedSwitch(block) && DistinctCases(block) && edge in LiveEdges(block)
    ensures TakenBySome(block, edge)
  {
    var Switch(discr, cases, otherwise) := block.terminator;
    var statements := block.statements;
    var trail := LateProjectionIsFree(statements, 0, 0);
    if ConstSwitchTarget(block).Some? {
      ConstantSwitchGoes(block, trail, edge.target);
    } else {
      assert IsTarget(cases, otherwise, edge.target);
      if discr.PlaceOperand? && !discr.place.projected {
        var v := ValueFor(block, edge.target);
        trail := UnknownLocalIsFree(statements, discr.place.local, v);
      }
    }
    assert EdgeTaken(block, trail[|trail| - 1], edge);
  }

  lemma ConstantSwitchGoes(block: BlockData, trail: seq<Store>, target: nat)
    requires block.terminator.Switch? && WellTypedSwitch(block) && IsTrail(block.statements, trail)
    requires ConstSwitchTarget(block) == Some(target)
    ensures SwitchGoes(block, trail[|block.statements|], target)
  {
    var Switch(discr, cases, otherwise) := block.terminator;
    var v: nat;
    if discr.PlaceOperand? {
      v := LastConst(block.statements, discr.place.local).value;
      LastConstHolds(block.statements, discr.place.local, trail);
    } else {
      v := discr.constant.bits.value;
    }
    TargetForValueIsFirst(cases, otherwise, v, target);
  }

  /** The analysis follows an edge exactly when some execution of the block leaves along it: pruning drops
      every edge it can and no other. */
  lemma LiveIffTaken(block: BlockData, edge: Edge)
    requires WellTypedSwitch(block) && DistinctCases(block)
    ensures edge in LiveEdges(block) <==> TakenBySome(block, edge)
  {
    if edge in LiveEdges(block) {
      if block.terminator.Switch? {
        SwitchEdgeIsTaken(block, edge);
      } else {
        var trail := LateProjectionIsFree(block.statements, 0, 0);
        assert EdgeTaken(block, trail[|trail| - 1], edge);
      }
    }
    if trail :| IsTrail(block.statements, trail) && EdgeTaken(block, trail[|trail| - 1], edge) {
      TakenEdgeIsLive(block, trail, edge);
    }
  }

  /** A block counts as an exit exactly when no execution leaves it. */
  lemma ExitIsLeftByNone(block: BlockData)
    ensures IsSummaryExit(block.terminator) <==> forall store, edge :: !EdgeTaken(block, store, edge)
  {
    match block.terminator
    case Jump(targets) =>
      if targets != [] {
        assert EdgeTaken(block, map[], Edge(targets[0], false));
      }
    case Switch(discr, cases, otherwise) =>
      var l := if discr.PlaceOperand? then discr.place.local else 0;
      var v := if discr.ConstOperand? && discr.constant.bits.Some? then discr.constant.bits.value else 0;
      var target := TargetForValue(cases, otherwise, v);
      TargetForValueIsFirst(cases, otherwise, v, target);
      if discr.PlaceOperand? && !discr.place.projected {
        assert EdgeTaken(block, map[l := v], Edge(target, false));
      } else if discr.ConstOperand? && discr.constant.bits.Some? {
        assert EdgeTaken(block, map[], Edge(target, false));
      } else {
        assert EdgeTaken(block, map[], Edge(otherwise, false));
      }
    case Call(returnTo, cleanup) =>
      if returnTo != [] {
        assert EdgeTaken(block, map[], Edge(returnTo[0], true));
      }
      if cleanup.Some? {
        assert EdgeTaken(block, map[], Edge(cleanup.value, false));
      }
    case _ =>
  }

  // ----- what a report means -----

  /** An event of the block, at statement `i` or, if `i` is the number of statements, at the terminator. */
  ghost predicate EventAt(body: Body, b: nat, i: nat, event: AuthEvent) {
    Location(b, i) in body.events && event in body.events[Location(b, i)]
  }

  /** The event names parameter `p`; it names the stored admin if `p` is none. */
  ghost predicate Names(event: AuthEvent, p: Option<nat>) {
    if p.Some? then event.paramIndex == p else event.isCurrentAdmin
  }

  function BitOf(p: Option<nat>): Bit {
    if p.Some? then Param(p.value) else CurrentAdmin
  }

  /** A block authorizes a value exactly when one of its events, the terminator's included, names it. */
  lemma BlockKillsMeaning(body: Body, b: nat, p: Option<nat>)
    requires b < |body.blocks|
    ensures BlockKills(body, b, BitOf(p)) <==>
            exists i: nat, event :: i <= |body.blocks[b].statements| && EventAt(body, b, i, event) && Names(event, p)
  {
    if i: nat, event :| i <= |body.blocks[b].statements| && EventAt(body, b, i, event) && Names(event, p) {
      assert event.Kills(BitOf(p));
      assert EventsKill(body.events[Location(b, i)], BitOf(p));
      assert LocationKills(body, Location(b, i), BitOf(p));
    }
    if BlockKills(body, b, BitOf(p)) {
      var i: nat :| i < |body.blocks[b].statements| + 1 && LocationKills(body, Location(b, i), BitOf(p));
      var event :| event in body.events[Location(b, i)] && event.Kills(BitOf(p));
      assert EventAt(body, b, i, event) && Names(event, p);
    }
  }

  /** Some path comes to the location with nothing on it, up to just before the location, that authorizes the value. */
  ghost predicate Exposed(body: Body, summaries: Summaries, loc: Location, p: Option<nat>) {
    && (p.Some? ==> p.value < |body.isAddress| && body.isAddress[p.value])
    && (exists path :: PathTo(body, path, loc.block) && Survives(body, summaries, path, BitOf(p)))
    && (forall i: nat, event :: i < loc.statementIndex && EventAt(body, loc.block, i, event) ==> !Names(event, p))
  }

  /** A sink is reported exactly when it has a parameter, and that parameter or the stored admin is exposed. */
  lemma ReportedMeaning(body: Body, summaries: Summaries, loc: Location, k: nat)
    requires loc in body.sinks && k < |body.sinks[loc]|
    ensures SinkReported(body, summaries, loc, k) <==>
            var p := body.sinks[loc][k].paramIndex;
            p.Some? && (Exposed(body, summaries, loc, p) || Exposed(body, summaries, loc, None))
  {
    ExposedMeaning(body, summaries, loc, body.sinks[loc][k].paramIndex);
    ExposedMeaning(body, summaries, loc, None);
  }

  lemma ExposedMeaning(body: Body, summaries: Summaries, loc: Location, p: Option<nat>)
    ensures MayReachLocation(body, summaries, loc, BitOf(p)) <==> Exposed(body, summaries, loc, p)
  {
    if i: nat, event :| i < loc.statementIndex && EventAt(body, loc.block, i, event) && Names(event, p) {
      assert event.Kills(BitOf(p));
      assert EventsKill(body.events[Location(loc.block, i)], BitOf(p));
      assert LocationKills(body, Location(loc.block, i), BitOf(p));
    }
    if KilledBefore(body, loc.block, loc.statementIndex, BitOf(p)) {
      var i: nat :| i < loc.statementIndex && LocationKills(body, Location(loc.block, i), BitOf(p));
      var event :| event in body.events[Location(loc.block, i)] && event.Kills(BitOf(p));
      assert EventAt(body, loc.block, i, event) && Names(event, p);
    }
  }
}
