/** Control-flow graphs with authorization events and call sites, and the meaning of the
    data-flow analysis on them: which bits are still unauthorized along which paths
    (detector missing-new-admin-auth). */
module AuthFlow {
  import opened Options
  import opened CallGraph

  /** What can be unauthorized: an incoming parameter, or the admin read from storage. */
  datatype Bit = Param(index: nat) | CurrentAdmin

  datatype AuthDomain = AuthDomain(unauthParams: set<nat>, currentAdminUnauth: bool) {
    predicate Has(bit: Bit) {
      match bit
      case Param(i) => i in unauthParams
      case CurrentAdmin => currentAdminUnauth
    }
  }

  datatype FnSummary = FnSummary(mustAuthParams: set<nat>, mustAuthCurrentAdmin: bool) {
    predicate Has(bit: Bit) {
      match bit
      case Param(i) => i in mustAuthParams
      case CurrentAdmin => mustAuthCurrentAdmin
    }
  }

  datatype AuthEvent = AuthEvent(paramIndex: Option<nat>, isCurrentAdmin: bool) {
    predicate Kills(bit: Bit) {
      match bit
      case Param(i) => paramIndex == Some(i)
      case CurrentAdmin => isCurrentAdmin
    }
  }

  datatype Sink = Sink(paramIndex: Option<nat>)
  datatype CallSite = CallSite(callee: FnId, argToParam: seq<Option<nat>>)
  datatype Location = Location(block: nat, statementIndex: nat)

  // ----- bodies -----

  datatype Place = Place(local: nat, projected: bool)

  /** A constant, with its bits if the compiler can evaluate it. */
  datatype Constant = Constant(bits: Option<nat>)
  datatype Rvalue = Use(constant: Constant) | OtherRvalue
  datatype Statement = Assign(lhs: Place, rhs: Rvalue) | OtherStatement
  datatype Operand = ConstOperand(constant: Constant) | PlaceOperand(place: Place) | RuntimeChecks

  datatype Terminator =
    | Return
    | Stop                                             // unreachable, resume, abort
    | Jump(targets: seq<nat>)                          // goto, drop, assert, false edges
    | Switch(discr: Operand, cases: seq<(nat, nat)>, otherwise: nat)
    | Call(returnTo: seq<nat>, cleanup: Option<nat>)

  datatype BlockData = BlockData(statements: seq<Statement>, terminator: Terminator)

  /** One function: its parameters (is it an address?), its blocks, the order in which the engine
      first visits them, and what was found in it. */
  datatype Body = Body(
    isAddress: seq<bool>,
    blocks: seq<BlockData>,
    order: seq<nat>,
    events: map<Location, seq<AuthEvent>>,
    callSites: map<nat, CallSite>,
    sinks: map<Location, seq<Sink>>)

  function Successors(t: Terminator): seq<nat> {
    match t
    case Return => []
    case Stop => []
    case Jump(targets) => targets
    case Switch(_, cases, otherwise) => seq(|cases|, i requires 0 <= i < |cases| => cases[i].1) + [otherwise]
    case Call(returnTo, cleanup) => returnTo + (if cleanup.Some? then [cleanup.value] else [])
  }

  /** An exit of the function, for its summary: a terminator without successors. */
  predicate IsSummaryExit(t: Terminator) {
    Successors(t) == []
  }

  ghost predicate WellFormed(body: Body) {
    && |body.blocks| > 0
    && (forall b, t :: 0 <= b < |body.blocks| && t in Successors(body.blocks[b].terminator) ==> t < |body.blocks|)
    && 0 in body.order && (forall b: nat :: b in body.order ==> b < |body.blocks|)
  }

  // ----- constant switches -----

  function TargetForValue(cases: seq<(nat, nat)>, otherwise: nat, bits: nat): nat {
    if cases == [] then otherwise
    else if cases[0].0 == bits then cases[0].1
    else TargetForValue(cases[1..], otherwise, bits)
  }

  /** The bits of the last whole assignment to `local`, if that assignment is a known constant. */
  function LastConst(statements: seq<Statement>, local: nat): Option<nat> {
    if statements == [] then None
    else
      var n := |statements| - 1;
      match statements[n]
      case Assign(Place(l, false), rhs) =>
        if l != local then LastConst(statements[..n], local)
        else if rhs.Use? then rhs.constant.bits else None
      case _ => LastConst(statements[..n], local)
  }

  function ConstSwitchTarget(block: BlockData): Option<nat>
    requires block.terminator.Switch?
  {
    var bits := match block.terminator.discr
      case ConstOperand(c) => c.bits
      case PlaceOperand(place) => if place.projected then None else LastConst(block.statements, place.local)
      case RuntimeChecks => None;
    if bits.None? then None
    else Some(TargetForValue(block.terminator.cases, block.terminator.otherwise, bits.value))
  }

  // ----- edges -----

  /** An edge out of a block; call summaries apply on return edges only. */
  datatype Edge = Edge(target: nat, viaReturn: bool)

  function PlainEdges(targets: seq<nat>): seq<Edge> {
    seq(|targets|, i requires 0 <= i < |targets| => Edge(targets[i], false))
  }

  /** The edges the analysis follows: all of them, but only one out of a constant switch. */
  function LiveEdges(block: BlockData): seq<Edge> {
    match block.terminator
    case Switch(_, _, _) =>
      var target := ConstSwitchTarget(block);
      if target.Some? then [Edge(target.value, false)] else PlainEdges(Successors(block.terminator))
    case Call(returnTo, cleanup) =>
      (if cleanup.Some? then [Edge(cleanup.value, false)] else []) +
      seq(|returnTo|, i requires 0 <= i < |returnTo| => Edge(returnTo[i], true))
    case t => PlainEdges(Successors(t))
  }

  lemma TargetIsSuccessor(cases: seq<(nat, nat)>, otherwise: nat, bits: nat)
    ensures TargetForValue(cases, otherwise, bits) == otherwise ||
        exists i :: 0 <= i < |cases| && cases[i].1 == TargetForValue(cases, otherwise, bits)
  {
    if cases != [] && cases[0].0 != bits {
      TargetIsSuccessor(cases[1..], otherwise, bits);
    }
  }

  lemma LiveEdgesInRange(body: Body, b: nat, e: Edge)
    requires WellFormed(body) && b < |body.blocks| && e in LiveEdges(body.blocks[b])
    ensures e.target < |body.blocks|
  {
    var block := body.blocks[b];
    if block.terminator.Switch? && ConstSwitchTarget(block).Some? {
      SwitchTargetIsSuccessor(block);
    } else {
      assert e.target in Successors(block.terminator);
    }
  }

  lemma SwitchTargetIsSuccessor(block: BlockData)
    requires block.terminator.Switch? && ConstSwitchTarget(block).Some?
    ensures ConstSwitchTarget(block).value in Successors(block.terminator)
  {
    var Switch(_, cases, otherwise) := block.terminator;
    var succ, target := Successors(block.terminator), ConstSwitchTarget(block).value;
    assert succ[|cases|] == otherwise;
    var bits: nat :| target == TargetForValue(cases, otherwise, bits);
    TargetIsSuccessor(cases, otherwise, bits);
    if target != otherwise {
      var i :| 0 <= i < |cases| && cases[i].1 == target;
      assert succ[i] == target;
    }
  }

  // ----- what kills a bit -----

  type Summaries = map<FnId, FnSummary>

  ghost predicate EventsKill(events: seq<AuthEvent>, bit: Bit) {
    exists e :: e in events && e.Kills(bit)
  }

  ghost predicate LocationKills(body: Body, loc: Location, bit: Bit) {
    loc in body.events && EventsKill(body.events[loc], bit)
  }

  /** An event strictly before statement `n` of the block authorizes `bit`. */
  ghost predicate KilledBefore(body: Body, b: nat, n: nat, bit: Bit) {
    exists i: nat :: i < n && LocationKills(body, Location(b, i), bit)
  }

  /** An event of the block, its terminator included, authorizes `bit`. */
  ghost predicate BlockKills(body: Body, b: nat, bit: Bit)
    requires b < |body.blocks|
  {
    KilledBefore(body, b, |body.blocks[b].statements| + 1, bit)
  }

  /** The call site hands `bit` of the caller to the callee as its `inner`. */
  ghost predicate HandsOver(site: CallSite, inner: Bit, bit: Bit) {
    match bit
    case Param(i) => inner.Param? && inner.index < |site.argToParam| && site.argToParam[inner.index] == Some(i)
    case CurrentAdmin => inner.CurrentAdmin?
  }

  /** The callee's summary authorizes `bit` when the call of block `b` returns. */
  ghost predicate CallKills(body: Body, summaries: Summaries, b: nat, bit: Bit) {
    && b in body.callSites
    && body.callSites[b].callee in summaries
    && exists inner :: HandsOver(body.callSites[b], inner, bit) && summaries[body.callSites[b].callee].Has(inner)
  }

  /** Bits that start out unauthorized. */
  predicate Initial(body: Body, bit: Bit) {
    match bit
    case Param(i) => i < |body.isAddress| && body.isAddress[i]
    case CurrentAdmin => true
  }

  // ----- paths -----

  /** A path of the analyzed graph from the start block. */
  datatype Path = AtStart | Via(prefix: Path, from: nat, edge: Edge)

  ghost predicate PathTo(body: Body, path: Path, b: nat) {
    match path
    case AtStart => b == 0 && 0 < |body.blocks|
    case Via(prefix, from, edge) =>
      && from < |body.blocks| && PathTo(body, prefix, from)
      && edge in LiveEdges(body.blocks[from]) && edge.target == b
  }

  ghost predicate EdgeKeeps(body: Body, summaries: Summaries, from: nat, edge: Edge, bit: Bit)
    requires from < |body.blocks|
  {
    !BlockKills(body, from, bit) && !(edge.viaReturn && CallKills(body, summaries, from, bit))
  }

  /** No event and no call return on the path authorizes `bit`. */
  ghost predicate Survives(body: Body, summaries: Summaries, path: Path, bit: Bit) {
    match path
    case AtStart => true
    case Via(prefix, from, edge) =>
      from < |body.blocks| && Survives(body, summaries, prefix, bit) && EdgeKeeps(body, summaries, from, edge, bit)
  }

  /** Some path reaches block `b` with `bit` unauthorized. */
  ghost predicate MayReach(body: Body, summaries: Summaries, b: nat, bit: Bit) {
    Initial(body, bit) && exists path :: PathTo(body, path, b) && Survives(body, summaries, path, bit)
  }

  // ----- summaries -----

  /** Some path leaves the function with `bit` unauthorized. */
  ghost predicate EscapesUnauthorized(body: Body, summaries: Summaries, bit: Bit) {
    exists b: nat :: b < |body.blocks| && IsSummaryExit(body.blocks[b].terminator) &&
                     MayReach(body, summaries, b, bit) && !BlockKills(body, b, bit)
  }

  ghost predicate MustAuth(body: Body, summaries: Summaries, bit: Bit) {
    Initial(body, bit) && !EscapesUnauthorized(body, summaries, bit)
  }

  function AddressParams(body: Body): (s: set<nat>)
    ensures forall i: nat :: i in s <==> Initial(body, Param(i))
  {
    set i: nat | i < |body.isAddress| && body.isAddress[i]
  }

  /** The summary of a body under given summaries of its callees, as meet over all paths. */
  ghost function SummaryOf(body: Body, summaries: Summaries): FnSummary {
    FnSummary((set i | i in AddressParams(body) && MustAuth(body, summaries, Param(i))),
              MustAuth(body, summaries, CurrentAdmin))
  }

  lemma SummaryOfMeaning(body: Body, summaries: Summaries)
    ensures forall bit :: SummaryOf(body, summaries).Has(bit) <==> MustAuth(body, summaries, bit)
  {
  }

  ghost predicate SummaryLe(a: FnSummary, b: FnSummary) {
    forall bit :: a.Has(bit) ==> b.Has(bit)
  }

  lemma SummariesEqual(a: FnSummary, b: FnSummary)
    requires forall bit :: a.Has(bit) <==> b.Has(bit)
    ensures a == b
  {
    forall i ensures i in a.mustAuthParams <==> i in b.mustAuthParams {
      assert a.Has(Param(i)) <==> b.Has(Param(i));
    }
    assert a.Has(CurrentAdmin) <==> b.Has(CurrentAdmin);
  }

  ghost predicate Le(s: Summaries, t: Summaries) {
    s.Keys <= t.Keys && forall f :: f in s ==> SummaryLe(s[f], t[f])
  }

  lemma {:induction false} SurvivesAntitone(body: Body, s: Summaries, t: Summaries, path: Path, bit: Bit)
    requires Le(s, t) && Survives(body, t, path, bit)
    ensures Survives(body, s, path, bit)
  {
    if path.Via? {
      SurvivesAntitone(body, s, t, path.prefix, bit);
      if CallKills(body, s, path.from, bit) {
        var inner :| HandsOver(body.callSites[path.from], inner, bit) && s[body.callSites[path.from].callee].Has(inner);
        assert t[body.callSites[path.from].callee].Has(inner);
        assert CallKills(body, t, path.from, bit);
      }
    }
  }

  /** More is known to be authorized when more is known about the callees. */
  lemma SummaryMonotone(body: Body, s: Summaries, t: Summaries)
    requires Le(s, t)
    ensures SummaryLe(SummaryOf(body, s), SummaryOf(body, t))
  {
    SummaryOfMeaning(body, s);
    SummaryOfMeaning(body, t);
    forall bit | MustAuth(body, s, bit)
      ensures MustAuth(body, t, bit)
    {
      if EscapesUnauthorized(body, t, bit) {
        var b: nat :| b < |body.blocks| && IsSummaryExit(body.blocks[b].terminator) &&
                      MayReach(body, t, b, bit) && !BlockKills(body, b, bit);
        var path :| PathTo(body, path, b) && Survives(body, t, path, bit);
        SurvivesAntitone(body, s, t, path, bit);
        assert MayReach(body, s, b, bit);
      }
    }
  }
}
