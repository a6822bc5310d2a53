/** The data-flow engine: mutable analysis states, the worklist over blocks, and the two
    clients that read its result. */
module AuthEngine {
  import opened Options
  import opened AuthFlow

  /** The analysis state the transfer functions update in place. */
  class AuthState {
    var unauthParams: set<nat>
    var currentAdminUnauth: bool

    constructor (value: AuthDomain)
      ensures Value() == value
    {
      unauthParams, currentAdminUnauth := value.unauthParams, value.currentAdminUnauth;
    }

    function Value(): AuthDomain
      reads this
    {
      AuthDomain(unauthParams, currentAdminUnauth)
    }

    /** Set union; reports whether anything was added. */
    method Join(other: AuthDomain) returns (changed: bool)
      modifies this
      ensures forall bit :: Value().Has(bit) <==> old(Value()).Has(bit) || other.Has(bit)
      ensures changed <==> Value() != old(Value())
      ensures changed <==> exists bit :: other.Has(bit) && !old(Value()).Has(bit)
    {
      changed := !(other.unauthParams <= unauthParams);
      if changed {
        ghost var i :| i in other.unauthParams && i !in unauthParams;
        assert other.Has(Param(i)) && !old(Value()).Has(Param(i));
      }
      unauthParams := unauthParams + other.unauthParams;
      if !currentAdminUnauth && other.currentAdminUnauth {
        assert other.Has(CurrentAdmin) && !old(Value()).Has(CurrentAdmin);
        currentAdminUnauth := true;
        changed := true;
      }
    }

    method ApplyAuthEvents(body: Body, loc: Location)
      modifies this
      ensures forall bit :: Value().Has(bit) <==> old(Value()).Has(bit) && !LocationKills(body, loc, bit)
    {
      if loc !in body.events {
        return;
      }
      var events := body.events[loc];
      for i := 0 to |events|
        invariant forall bit :: Value().Has(bit) <==> old(Value()).Has(bit) && !EventsKill(events[..i], bit)
      {
        var event := events[i];
        label before:
        if event.paramIndex.Some? {
          unauthParams := unauthParams - {event.paramIndex.value};
        }
        if event.isCurrentAdmin {
          currentAdminUnauth := false;
        }
        assert forall bit :: Value().Has(bit) <==> old@before(Value()).Has(bit) && !event.Kills(bit);
        EventsKillMore(events, i);
      }
      assert events[..|events|] == events;
    }

    /** Every statement of the block in order, then its terminator. */
    method ApplyBlock(body: Body, b: nat)
      requires b < |body.blocks|
      modifies this
      ensures forall bit :: Value().Has(bit) <==> old(Value()).Has(bit) && !BlockKills(body, b, bit)
    {
      ApplyStatements(body, b, |body.blocks[b].statements| + 1);
    }

    /** The effects of the first `n` locations of the block. */
    method ApplyStatements(body: Body, b: nat, n: nat)
      modifies this
      ensures forall bit :: Value().Has(bit) <==> old(Value()).Has(bit) && !KilledBefore(body, b, n, bit)
    {
      for i := 0 to n
        invariant forall bit :: Value().Has(bit) <==> old(Value()).Has(bit) && !KilledBefore(body, b, i, bit)
      {
        ApplyAuthEvents(body, Location(b, i));
        assert forall bit :: KilledBefore(body, b, i + 1, bit) <==>
            KilledBefore(body, b, i, bit) || LocationKills(body, Location(b, i), bit);
      }
    }

    method ApplyCallReturnEffect(body: Body, summaries: Summaries, b: nat)
      modifies this
      ensures forall bit :: Value().Has(bit) <==> old(Value()).Has(bit) && !CallKills(body, summaries, b, bit)
    {
      if b !in body.callSites {
        return;
      }
      var site := body.callSites[b];
      if site.callee !in summaries {
        return;
      }
      var summary := summaries[site.callee];
      for calleeIdx := 0 to |site.argToParam|
        invariant currentAdminUnauth == old(currentAdminUnauth)
        invariant forall i: nat :: i in unauthParams <==>
                    (i in old(unauthParams) &&
                     !exists k: nat :: k < calleeIdx && k in summary.mustAuthParams && site.argToParam[k] == Some(i))
      {
        var callerIdx := site.argToParam[calleeIdx];
        if calleeIdx in summary.mustAuthParams && callerIdx.Some? {
          unauthParams := unauthParams - {callerIdx.value};
        }
      }
      if summary.mustAuthCurrentAdmin {
        currentAdminUnauth := false;
      }
      CallKillsByArgument(body, summaries, b);
    }
  }

  lemma EventsKillMore(events: seq<AuthEvent>, i: nat)
    requires i < |events|
    ensures forall bit :: EventsKill(events[..i + 1], bit) <==> EventsKill(events[..i], bit) || events[i].Kills(bit)
  {
    assert events[..i + 1] == events[..i] + [events[i]];
    forall bit | events[i].Kills(bit)
      ensures EventsKill(events[..i + 1], bit)
    {
      assert events[i] in events[..i + 1];
    }
  }

  lemma CallKillsByArgument(body: Body, summaries: Summaries, b: nat)
    requires b in body.callSites && body.callSites[b].callee in summaries
    ensures var site, summary := body.callSites[b], summaries[body.callSites[b].callee];
            && (CallKills(body, summaries, b, CurrentAdmin) <==> summary.mustAuthCurrentAdmin)
            && forall i: nat :: CallKills(body, summaries, b, Param(i)) <==>
                 exists k: nat :: k < |site.argToParam| && k in summary.mustAuthParams && site.argToParam[k] == Some(i)
  {
    var site, summary := body.callSites[b], summaries[body.callSites[b].callee];
    forall i: nat, k: nat | k < |site.argToParam| && k in summary.mustAuthParams && site.argToParam[k] == Some(i)
      ensures CallKills(body, summaries, b, Param(i))
    {
      assert HandsOver(site, Param(k), Param(i)) && summary.Has(Param(k));
    }
    assert summary.mustAuthCurrentAdmin ==> HandsOver(site, CurrentAdmin, CurrentAdmin) && summary.Has(CurrentAdmin);
  }

  // ----- the worklist -----

  type Entries = seq<AuthDomain>

  /** The bits a processed block passes along an edge are in the target's entry state. */
  ghost predicate EdgeSettled(body: Body, summaries: Summaries, entries: Entries, b: nat, edge: Edge)
    requires b < |body.blocks| == |entries|
  {
    edge.target < |entries| &&
    forall bit :: entries[b].Has(bit) && EdgeKeeps(body, summaries, b, edge, bit) ==> entries[edge.target].Has(bit)
  }

  ghost predicate Settled(body: Body, summaries: Summaries, entries: Entries, b: nat)
    requires b < |body.blocks| == |entries|
  {
    forall edge :: edge in LiveEdges(body.blocks[b]) ==> EdgeSettled(body, summaries, entries, b, edge)
  }

  ghost function Elems(queue: seq<nat>): set<nat> {
    set b | b in queue
  }

  /** Blocks that are not pending have passed on everything in their entry state. */
  ghost predicate EngineInv(body: Body, summaries: Summaries, entries: Entries, pending: set<nat>) {
    && |entries| == |body.blocks| > 0
    && (forall b: nat :: b in pending ==> b < |body.blocks|)
    && (forall b: nat, bit :: b < |entries| && entries[b].Has(bit) ==> MayReach(body, summaries, b, bit))
    && (forall bit :: Initial(body, bit) ==> entries[0].Has(bit))
    && (forall b: nat :: b < |entries| && b !in pending ==> Settled(body, summaries, entries, b))
  }

  /** What is still missing from the entry states: the measure of the outer loop. */
  ghost function Missing(body: Body, entries: Entries): set<(nat, Bit)> {
    (set b: nat, i | b < |entries| && i in AddressParams(body) && !entries[b].Has(Param(i)) :: (b, Param(i))) +
    (set b: nat | b < |entries| && !entries[b].Has(CurrentAdmin) :: (b, CurrentAdmin))
  }

  lemma MissingShrinks(body: Body, entries: Entries, target: nat, joined: AuthDomain)
    requires target < |entries|
    requires forall bit :: entries[target].Has(bit) ==> joined.Has(bit)
    requires forall bit :: joined.Has(bit) ==> Initial(body, bit)
    requires exists bit :: joined.Has(bit) && !entries[target].Has(bit)
    ensures Missing(body, entries[target := joined]) < Missing(body, entries)
  {
    var bit :| joined.Has(bit) && !entries[target].Has(bit);
    assert (target, bit) in Missing(body, entries) - Missing(body, entries[target := joined]);
    forall x | x in Missing(body, entries[target := joined])
      ensures x in Missing(body, entries)
    {
      assert x.0 != target ==> entries[target := joined][x.0] == entries[x.0];
    }
  }

  /** A bit that reaches a block and survives an edge reaches the edge's target. */
  lemma MayReachEdge(body: Body, summaries: Summaries, b: nat, edge: Edge, bit: Bit)
    requires b < |body.blocks| && edge in LiveEdges(body.blocks[b])
    requires MayReach(body, summaries, b, bit) && EdgeKeeps(body, summaries, b, edge, bit)
    ensures MayReach(body, summaries, edge.target, bit)
  {
    var path :| PathTo(body, path, b) && Survives(body, summaries, path, bit);
    var longer := Via(path, b, edge);
    assert PathTo(body, longer, edge.target) && Survives(body, summaries, longer, bit);
  }

  /** Joins what flows along one edge into the target's entry state; requeues the target if it grew. */
  method Propagate(body: Body, summaries: Summaries, entries: Entries, queue: seq<nat>, state: AuthDomain, b: nat,
                   edge: Edge)
    returns (entries': Entries, queue': seq<nat>)
    requires WellFormed(body) && |entries| == |body.blocks| && b < |body.blocks| && edge in LiveEdges(body.blocks[b])
    ensures |entries'| == |entries|
    ensures edge.target < |entries|
    ensures forall c: nat :: c < |entries| && c != edge.target ==> entries'[c] == entries[c]
    ensures forall bit :: entries'[edge.target].Has(bit) <==> entries[edge.target].Has(bit) || state.Has(bit)
    ensures entries' == entries ==> queue' == queue
    ensures entries' != entries ==>
              && (forall c: nat :: c in queue' <==> c in queue || c == edge.target)
              && exists bit :: state.Has(bit) && !entries[edge.target].Has(bit)
  {
    LiveEdgesInRange(body, b, edge);
    var entry := new AuthState(entries[edge.target]);
    var changed := entry.Join(state);
    entries' := entries[edge.target := entry.Value()];
    queue' := if changed && edge.target !in queue then queue + [edge.target] else queue;
  }

  /** One worklist step: all edges of block `b` from its current entry state. */
  method ProcessBlock(body: Body, summaries: Summaries, entries: Entries, queue: seq<nat>, b: nat)
    returns (entries': Entries, queue': seq<nat>)
    requires WellFormed(body) && b < |body.blocks| && EngineInv(body, summaries, entries, {b} + Elems(queue))
    ensures EngineInv(body, summaries, entries', Elems(queue'))
    ensures Missing(body, entries') < Missing(body, entries) || (entries' == entries && queue' == queue)
  {
    var block := body.blocks[b];
    var entry := entries[b];
    var state := new AuthState(entry);
    state.ApplyBlock(body, b);
    var plain := state.Value();
    state.ApplyCallReturnEffect(body, summaries, b);
    var returned := state.Value();
    var edges := LiveEdges(block);
    entries', queue' := entries, queue;
    for i := 0 to |edges|
      invariant StepInv(body, summaries, entry, entries', queue', b, edges[..i])
      invariant Missing(body, entries') < Missing(body, entries) || (entries' == entries && queue' == queue)
    {
      var edge := edges[i];
      assert edge in LiveEdges(block) && edges[..i + 1] == edges[..i] + [edge];
      entries', queue' := FlowAlong(body, summaries, entry, entries', queue', b, edges[..i], edge,
                                    if edge.viaReturn then returned else plain);
    }
    assert edges[..|edges|] == edges;
    StepDone(body, summaries, entry, entries', queue', b);
  }

  /** Sends the state along one more edge of the block being processed. */
  method FlowAlong(body: Body, summaries: Summaries, ghost entry: AuthDomain, entries: Entries, queue: seq<nat>, b: nat,
                   ghost done: seq<Edge>, edge: Edge, flowing: AuthDomain)
    returns (entries': Entries, queue': seq<nat>)
    requires WellFormed(body) && StepInv(body, summaries, entry, entries, queue, b, done)
    requires edge in LiveEdges(body.blocks[b])
    requires forall bit :: flowing.Has(bit) <==> entry.Has(bit) && EdgeKeeps(body, summaries, b, edge, bit)
    ensures StepInv(body, summaries, entry, entries', queue', b, done + [edge])
    ensures Missing(body, entries') < Missing(body, entries) || (entries' == entries && queue' == queue)
  {
    entries', queue' := Propagate(body, summaries, entries, queue, flowing, b, edge);
    StepKeeps(body, summaries, entry, entries, queue, b, done, edge, flowing, entries', queue');
    if entries' != entries {
      assert entries' == entries[edge.target := entries'[edge.target]];
      MissingShrinks(body, entries, edge.target, entries'[edge.target]);
    }
  }

  lemma StepDone(body: Body, summaries: Summaries, entry: AuthDomain, entries: Entries, queue: seq<nat>, b: nat)
    requires b < |body.blocks| && StepInv(body, summaries, entry, entries, queue, b, LiveEdges(body.blocks[b]))
    ensures EngineInv(body, summaries, entries, Elems(queue))
  {
    if b in queue {
      assert {b} + Elems(queue) == Elems(queue);
    } else {
      assert Settled(body, summaries, entries, b);
    }
  }

  /** In the middle of a step: block `b` was taken with state `entry` and passed it along `done`. */
  ghost predicate StepInv(body: Body, summaries: Summaries, entry: AuthDomain, entries: Entries, queue: seq<nat>,
                          b: nat, done: seq<Edge>) {
    && |entries| == |body.blocks| && b < |entries|
    && EngineInv(body, summaries, entries, {b} + Elems(queue))
    && (forall bit :: entry.Has(bit) ==> MayReach(body, summaries, b, bit))
    && (b !in queue ==> entries[b] == entry)
    && (b !in queue ==> forall edge :: edge in done ==> EdgeSettled(body, summaries, entries, b, edge))
  }

  lemma StepKeeps(body: Body, summaries: Summaries, entry: AuthDomain, entries: Entries, queue: seq<nat>, b: nat,
                  done: seq<Edge>, edge: Edge, flowing: AuthDomain, entries': Entries, queue': seq<nat>)
    requires StepInv(body, summaries, entry, entries, queue, b, done)
    requires edge in LiveEdges(body.blocks[b]) && edge.target < |entries|
    requires forall bit :: flowing.Has(bit) <==> entry.Has(bit) && EdgeKeeps(body, summaries, b, edge, bit)
    requires |entries'| == |entries|
    requires forall c: nat :: c < |entries| && c != edge.target ==> entries'[c] == entries[c]
    requires forall bit :: entries'[edge.target].Has(bit) <==> entries[edge.target].Has(bit) || flowing.Has(bit)
    requires entries' == entries ==> queue' == queue
    requires entries' != entries ==> forall c: nat :: c in queue' <==> c in queue || c == edge.target
    ensures StepInv(body, summaries, entry, entries', queue', b, done + [edge])
    ensures forall bit :: entries'[edge.target].Has(bit) ==> Initial(body, bit)
  {
    forall bit | entries'[edge.target].Has(bit)
      ensures MayReach(body, summaries, edge.target, bit)
    {
      if flowing.Has(bit) {
        MayReachEdge(body, summaries, b, edge, bit);
      }
    }
    forall c: nat | c < |entries'| && c !in {b} + Elems(queue')
      ensures Settled(body, summaries, entries', c)
    {
      assert c !in {b} + Elems(queue);
      SettledKept(body, summaries, entries, entries', c, edge.target);
    }
    forall c: nat, bit | c < |entries'| && entries'[c].Has(bit)
      ensures MayReach(body, summaries, c, bit)
    {
      assert c != edge.target ==> entries'[c] == entries[c];
    }
    forall bit | Initial(body, bit)
      ensures entries'[0].Has(bit)
    {
      assert entries[0].Has(bit) && (edge.target != 0 ==> entries'[0] == entries[0]);
    }
    assert EngineInv(body, summaries, entries', {b} + Elems(queue'));
    if b !in queue' {
      assert b !in queue && entries'[b] == entries[b] == entry;
      forall e | e in done + [edge]
        ensures EdgeSettled(body, summaries, entries', b, e)
      {
        assert e in done ==> EdgeSettled(body, summaries, entries, b, e);
      }
    }
  }

  /** Growing one entry state unsettles no other block. */
  lemma SettledKept(body: Body, summaries: Summaries, entries: Entries, entries': Entries, c: nat, target: nat)
    requires |entries| == |entries'| == |body.blocks| && c < |entries| && target < |entries|
    requires Settled(body, summaries, entries, c) && entries'[c] == entries[c]
    requires forall d: nat :: d < |entries| && d != target ==> entries'[d] == entries[d]
    requires forall bit :: entries[target].Has(bit) ==> entries'[target].Has(bit)
    ensures Settled(body, summaries, entries', c)
  {
    forall e | e in LiveEdges(body.blocks[c])
      ensures EdgeSettled(body, summaries, entries', c, e)
    {
      assert EdgeSettled(body, summaries, entries, c, e);
    }
  }

  /** The fixpoint of the analysis is the meet over all paths: a bit is in the entry state of a
      block exactly when some path reaches the block with it unauthorized, in whatever order the
      blocks are first visited. */
  method IterateToFixpoint(body: Body, summaries: Summaries) returns (entries: Entries)
    requires WellFormed(body)
    ensures |entries| == |body.blocks|
    ensures forall b: nat, bit :: b < |entries| ==> (entries[b].Has(bit) <==> MayReach(body, summaries, b, bit))
  {
    var bottom := AuthDomain({}, false);
    entries := seq(|body.blocks|, _ => bottom);
    entries := entries[0 := AuthDomain(AddressParams(body), true)];
    var queue := body.order;
    StartReaches(body, summaries);
    forall b: nat | b < |entries| && b !in queue
      ensures Settled(body, summaries, entries, b)
    {
      forall edge | edge in LiveEdges(body.blocks[b]) ensures edge.target < |entries| {
        LiveEdgesInRange(body, b, edge);
      }
      assert entries[b] == bottom;
    }
    while |queue| > 0
      invariant EngineInv(body, summaries, entries, Elems(queue))
      decreases Missing(body, entries), |queue|
    {
      var b := queue[0];
      ghost var before := queue;
      queue := queue[1..];
      assert before == [b] + queue;
      assert Elems(before) == {b} + Elems(queue);
      entries, queue := ProcessBlock(body, summaries, entries, queue, b);
    }
    forall b: nat, bit | b < |entries| && MayReach(body, summaries, b, bit)
      ensures entries[b].Has(bit)
    {
      var path :| PathTo(body, path, b) && Survives(body, summaries, path, bit);
      SettledCoversPath(body, summaries, entries, path, b, bit);
    }
  }

  lemma StartReaches(body: Body, summaries: Summaries)
    requires 0 < |body.blocks|
    ensures forall bit :: Initial(body, bit) ==> MayReach(body, summaries, 0, bit)
  {
    assert PathTo(body, AtStart, 0);
    assert forall bit :: Survives(body, summaries, AtStart, bit);
  }

  lemma {:induction false} SettledCoversPath(body: Body, summaries: Summaries, entries: Entries, path: Path, b: nat,
                                             bit: Bit)
    requires EngineInv(body, summaries, entries, {})
    requires b < |entries| && PathTo(body, path, b) && Survives(body, summaries, path, bit) && Initial(body, bit)
    ensures entries[b].Has(bit)
  {
    if path.Via? {
      SettledCoversPath(body, summaries, entries, path.prefix, path.from, bit);
      assert Settled(body, summaries, entries, path.from);
      assert EdgeSettled(body, summaries, entries, path.from, path.edge);
    }
  }

  // ----- the two clients -----

  method AddressParamSet(isAddress: seq<bool>) returns (params: set<nat>)
    ensures forall i: nat :: i in params <==> i < |isAddress| && isAddress[i]
  {
    params := {};
    for i := 0 to |isAddress|
      invariant forall j: nat :: j in params <==> j < i && isAddress[j]
    {
      if isAddress[i] {
        params := params + {i};
      }
    }
  }

  /** What every exit of the body guarantees. */
  method ComputeSummaryForFn(body: Body, summaries: Summaries) returns (summary: FnSummary)
    requires WellFormed(body)
    ensures summary == SummaryOf(body, summaries)
  {
    var entries := IterateToFixpoint(body, summaries);
    var mustAuthParams := AddressParamSet(body.isAddress);
    var mustAuthCurrentAdmin := true;
    for b := 0 to |body.blocks|
      invariant forall bit :: FnSummary(mustAuthParams, mustAuthCurrentAdmin).Has(bit) <==>
                  Initial(body, bit) && !EscapesBefore(body, summaries, b, bit)
    {
      EscapesOneMore(body, summaries, b);
      if IsSummaryExit(body.blocks[b].terminator) {
        var state := ExitState(body, summaries, entries, b);
        ghost var previous := FnSummary(mustAuthParams, mustAuthCurrentAdmin);
        mustAuthParams := mustAuthParams - state.unauthParams;
        if state.currentAdminUnauth {
          mustAuthCurrentAdmin := false;
        }
        assert forall bit :: FnSummary(mustAuthParams, mustAuthCurrentAdmin).Has(bit) <==>
            previous.Has(bit) && !state.Has(bit);
      }
    }
    summary := FnSummary(mustAuthParams, mustAuthCurrentAdmin);
    SummaryOfMeaning(body, summaries);
    SummariesEqual(summary, SummaryOf(body, summaries));
  }

  /** The state at an exit, after the effects of its block. */
  method ExitState(body: Body, summaries: Summaries, entries: Entries, b: nat) returns (value: AuthDomain)
    requires |entries| == |body.blocks| && b < |entries|
    requires forall c: nat, bit :: c < |entries| ==> (entries[c].Has(bit) <==> MayReach(body, summaries, c, bit))
    ensures forall bit :: value.Has(bit) <==> MayReach(body, summaries, b, bit) && !BlockKills(body, b, bit)
  {
    var state := new AuthState(entries[b]);
    state.ApplyBlock(body, b);
    value := state.Value();
  }

  ghost predicate EscapesBefore(body: Body, summaries: Summaries, n: nat, bit: Bit)
    requires n <= |body.blocks|
  {
    exists b: nat :: b < n && IsSummaryExit(body.blocks[b].terminator) &&
                     MayReach(body, summaries, b, bit) && !BlockKills(body, b, bit)
  }

  lemma EscapesOneMore(body: Body, summaries: Summaries, b: nat)
    requires b < |body.blocks|
    ensures forall bit :: EscapesBefore(body, summaries, b + 1, bit) <==>
              EscapesBefore(body, summaries, b, bit) ||
              (IsSummaryExit(body.blocks[b].terminator) && MayReach(body, summaries, b, bit) &&
               !BlockKills(body, b, bit))
  {
  }

  /** Some path reaches the location, before its own effect, with `bit` unauthorized. */
  ghost predicate MayReachLocation(body: Body, summaries: Summaries, loc: Location, bit: Bit) {
    MayReach(body, summaries, loc.block, bit) && !KilledBefore(body, loc.block, loc.statementIndex, bit)
  }

  /** The `k`-th sink at `loc` is reported. */
  ghost predicate SinkReported(body: Body, summaries: Summaries, loc: Location, k: nat) {
    && loc in body.sinks && k < |body.sinks[loc]|
    && body.sinks[loc][k].paramIndex.Some?
    && (|| MayReachLocation(body, summaries, loc, Param(body.sinks[loc][k].paramIndex.value))
        || MayReachLocation(body, summaries, loc, CurrentAdmin))
  }

  ghost predicate SinksInBody(body: Body) {
    forall loc: Location :: loc in body.sinks ==> loc.block < |body.blocks|
  }

  /** A sink is reported exactly when a path reaches it with its parameter, or a path reaches it with
      the current admin, unauthorized. `locs` are the sink locations in the order of the hash map. */
  method LintSinksForFn(body: Body, summaries: Summaries, locs: seq<Location>)
    returns (findings: set<(Location, nat)>)
    requires WellFormed(body) && SinksInBody(body)
    requires forall loc :: loc in locs <==> loc in body.sinks
    ensures forall x: (Location, nat) :: x in findings <==> SinkReported(body, summaries, x.0, x.1)
  {
    var entries := IterateToFixpoint(body, summaries);
    findings := {};
    for i := 0 to |locs|
      invariant forall x: (Location, nat) :: x in findings <==>
          x.0 in locs[..i] && SinkReported(body, summaries, x.0, x.1)
    {
      assert locs[..i + 1] == locs[..i] + [locs[i]];
      var here := LintLocation(body, summaries, entries, locs[i]);
      findings := findings + here;
    }
    assert locs[..|locs|] == locs;
  }

  /** The sinks of one location, against the state before its own effect. */
  method LintLocation(body: Body, summaries: Summaries, entries: Entries, loc: Location)
      returns (findings: set<(Location, nat)>)
    requires loc in body.sinks && |entries| == |body.blocks| && loc.block < |entries|
    requires forall b: nat, bit :: b < |entries| ==> (entries[b].Has(bit) <==> MayReach(body, summaries, b, bit))
    ensures forall x: (Location, nat) :: x in findings <==> x.0 == loc && SinkReported(body, summaries, loc, x.1)
  {
    var state := new AuthState(entries[loc.block]);
    state.ApplyStatements(body, loc.block, loc.statementIndex);
    var value := state.Value();
    assert forall bit :: value.Has(bit) <==> MayReachLocation(body, summaries, loc, bit);
    findings := {};
    for k := 0 to |body.sinks[loc]|
      invariant forall x: (Location, nat) :: x in findings <==>
          x.0 == loc && x.1 < k && SinkReported(body, summaries, loc, x.1)
    {
      var sink := body.sinks[loc][k];
      if sink.paramIndex.None? {
        continue;
      }
      assert value.Has(Param(sink.paramIndex.value)) <==> sink.paramIndex.value in value.unauthParams;
      assert value.Has(CurrentAdmin) <==> value.currentAdminUnauth;
      if sink.paramIndex.value in value.unauthParams || value.currentAdminUnauth {
        findings := findings + {(loc, k)};
      }
    }
  }
}
