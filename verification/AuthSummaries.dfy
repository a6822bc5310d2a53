/** The outer fixpoint over function summaries and the whole pass of the detector. */
module AuthSummaries {
  import opened Reachability
  import opened CallGraph
  import opened AuthFlow
  import opened AuthEngine
  import opened AuthRuns

  /** Recomputing a summary never adds a claim that the map does not hold. */
  ghost predicate Closed(program: Program, summaries: Summaries) {
    summaries.Keys <= program.Keys &&
    forall f :: f in summaries ==> SummaryLe(SummaryOf(program[f], summaries), summaries[f])
  }

  ghost predicate Fixpoint(program: Program, summaries: Summaries) {
    summaries.Keys <= program.Keys &&
    forall f :: f in summaries ==> summaries[f] == SummaryOf(program[f], summaries)
  }

  ghost predicate BelowEveryClosed(program: Program, summaries: Summaries) {
    forall other: Summaries :: other.Keys == summaries.Keys && Closed(program, other) ==> Le(summaries, other)
  }

  /** The least solution of the summary equations. */
  ghost predicate LeastFixpoint(program: Program, summaries: Summaries) {
    Fixpoint(program, summaries) && BelowEveryClosed(program, summaries)
  }

  /** Every summary the map holds is justified by the map itself. */
  ghost predicate Ascending(program: Program, summaries: Summaries) {
    summaries.Keys <= program.Keys &&
    forall f :: f in summaries ==> SummaryLe(summaries[f], SummaryOf(program[f], summaries))
  }

  /** What holds at every step of the outer loop. */
  ghost predicate StepInvariant(program: Program, summaries: Summaries) {
    Ascending(program, summaries) && BelowEveryClosed(program, summaries) && Sound(program, summaries)
  }

  /** The claims that can still be added. */
  ghost function Unclaimed(program: Program, summaries: Summaries): set<(FnId, Bit)> {
    (set f, i | f in summaries && f in program && i in AddressParams(program[f]) && !summaries[f].Has(Param(i)) ::
       (f, Param(i))) +
    (set f | f in summaries && !summaries[f].Has(CurrentAdmin) :: (f, CurrentAdmin))
  }

  /** Recomputing one summary in place keeps the invariant, and a change uses up a claim. */
  lemma StepKeepsInvariant(program: Program, summaries: Summaries, f: FnId)
    requires WellFormedProgram(program) && StepInvariant(program, summaries) && f in summaries
    ensures var updated := summaries[f := SummaryOf(program[f], summaries)];
            && StepInvariant(program, updated) && Le(summaries, updated)
            && (updated != summaries ==> Unclaimed(program, updated) < Unclaimed(program, summaries))
  {
    AscendingKept(program, summaries, f);
    BelowKept(program, summaries, f);
    SummaryUpdateIsSound(program, summaries, f);
    if summaries[f := SummaryOf(program[f], summaries)] != summaries {
      ClaimUsed(program, summaries, f);
    }
  }

  lemma ProperStep(program: Program, summaries: Summaries, f: FnId) returns (updated: Summaries)
    requires WellFormedProgram(program) && StepInvariant(program, summaries) && f in summaries
    requires summaries[f] != SummaryOf(program[f], summaries)
    ensures updated == summaries[f := SummaryOf(program[f], summaries)] && updated.Keys == summaries.Keys
    ensures StepInvariant(program, updated) && Unclaimed(program, updated) < Unclaimed(program, summaries)
  {
    updated := summaries[f := SummaryOf(program[f], summaries)];
    assert updated[f] != summaries[f];
    StepKeepsInvariant(program, summaries, f);
  }

  lemma AscendingKept(program: Program, summaries: Summaries, f: FnId)
    requires Ascending(program, summaries) && f in summaries
    ensures var updated := summaries[f := SummaryOf(program[f], summaries)];
            Ascending(program, updated) && Le(summaries, updated)
  {
    var updated := summaries[f := SummaryOf(program[f], summaries)];
    forall g | g in updated
      ensures SummaryLe(updated[g], SummaryOf(program[g], updated))
    {
      SummaryMonotone(program[g], summaries, updated);
    }
  }

  lemma BelowKept(program: Program, summaries: Summaries, f: FnId)
    requires BelowEveryClosed(program, summaries) && f in summaries && f in program
    ensures BelowEveryClosed(program, summaries[f := SummaryOf(program[f], summaries)])
  {
    var updated := summaries[f := SummaryOf(program[f], summaries)];
    forall other: Summaries | other.Keys == updated.Keys && Closed(program, other)
      ensures Le(updated, other)
    {
      assert Le(summaries, other);
      SummaryMonotone(program[f], summaries, other);
    }
  }

  lemma ClaimUsed(program: Program, summaries: Summaries, f: FnId)
    requires Ascending(program, summaries) && f in summaries
    requires summaries[f := SummaryOf(program[f], summaries)] != summaries
    ensures Unclaimed(program, summaries[f := SummaryOf(program[f], summaries)]) < Unclaimed(program, summaries)
  {
    var recomputed := SummaryOf(program[f], summaries);
    var updated := summaries[f := recomputed];
    SummaryOfMeaning(program[f], summaries);
    var bit := NewClaim(summaries[f], recomputed);
    assert (f, bit) in Unclaimed(program, summaries) - Unclaimed(program, updated);
    forall x | x in Unclaimed(program, updated)
      ensures x in Unclaimed(program, summaries)
    {
      assert x.0 != f ==> updated[x.0] == summaries[x.0];
    }
  }

  lemma NewClaim(a: FnSummary, b: FnSummary) returns (bit: Bit)
    requires SummaryLe(a, b) && a != b
    ensures b.Has(bit) && !a.Has(bit)
  {
    if forall x :: b.Has(x) ==> a.Has(x) {
      SummariesEqual(a, b);
    }
    bit :| b.Has(bit) && !a.Has(bit);
  }

  lemma EmptyIsStart(program: Program, summaries: Summaries)
    requires summaries.Keys <= program.Keys && forall f :: f in summaries ==> summaries[f] == FnSummary({}, false)
    ensures StepInvariant(program, summaries)
  {
    assert forall bit :: !FnSummary({}, false).Has(bit);
  }

  method EmptySummaries(program: Program, functions: seq<FnId>) returns (summaries: Summaries)
    requires WellFormedProgram(program)
    ensures forall f :: f in summaries <==> f in functions && f in program
    ensures forall f :: f in summaries ==> summaries[f] == FnSummary({}, false)
    ensures StepInvariant(program, summaries)
  {
    summaries := map[];
    for i := 0 to |functions|
      invariant forall f :: f in summaries <==> f in functions[..i] && f in program
      invariant forall f :: f in summaries ==> summaries[f] == FnSummary({}, false)
    {
      assert functions[..i + 1] == functions[..i] + [functions[i]];
      if functions[i] in program {
        summaries := summaries[functions[i] := FnSummary({}, false)];
      }
    }
    assert functions[..|functions|] == functions;
    EmptyIsStart(program, summaries);
  }

  /** Recomputes one summary from the current map and stores it if it differs. */
  method Recompute(program: Program, f: FnId, summaries: Summaries) returns (summaries': Summaries, changed: bool)
    requires WellFormedProgram(program) && StepInvariant(program, summaries) && f in summaries
    ensures StepInvariant(program, summaries') && summaries'.Keys == summaries.Keys
    ensures changed ==> Unclaimed(program, summaries') < Unclaimed(program, summaries)
    ensures !changed ==> summaries' == summaries && summaries[f] == SummaryOf(program[f], summaries)
  {
    var newSummary := ComputeSummaryForFn(program[f], summaries);
    changed := summaries[f] != newSummary;
    summaries' := summaries;
    if changed {
      summaries' := summaries[f := newSummary];
      ghost var updated := ProperStep(program, summaries, f);
    }
  }

  /** The listed functions have the summaries the map gives them. */
  ghost predicate FixedOn(program: Program, summaries: Summaries, functions: seq<FnId>) {
    forall f :: f in functions && f in program ==> f in summaries && summaries[f] == SummaryOf(program[f], summaries)
  }

  lemma FixedOnOneMore(program: Program, summaries: Summaries, functions: seq<FnId>, i: nat)
    requires i < |functions| && FixedOn(program, summaries, functions[..i])
    requires functions[i] in program ==>
        functions[i] in summaries && summaries[functions[i]] == SummaryOf(program[functions[i]], summaries)
    ensures FixedOn(program, summaries, functions[..i + 1])
  {
    assert functions[..i + 1] == functions[..i] + [functions[i]];
  }

  /** One pass over the functions, updating the map in place. */
  method SummaryPass(program: Program, functions: seq<FnId>, summaries: Summaries)
    returns (summaries': Summaries, changed: bool)
    requires WellFormedProgram(program) && StepInvariant(program, summaries)
    requires forall f :: f in summaries <==> f in functions && f in program
    ensures StepInvariant(program, summaries') && summaries'.Keys == summaries.Keys
    ensures changed ==> Unclaimed(program, summaries') < Unclaimed(program, summaries)
    ensures !changed ==> summaries' == summaries && FixedOn(program, summaries, functions)
  {
    summaries', changed := summaries, false;
    for i := 0 to |functions|
      invariant StepInvariant(program, summaries') && summaries'.Keys == summaries.Keys
      invariant changed ==> Unclaimed(program, summaries') < Unclaimed(program, summaries)
      invariant !changed ==> summaries' == summaries && FixedOn(program, summaries, functions[..i])
    {
      var f := functions[i];
      var updated := false;
      if f in program {
        summaries', updated := Recompute(program, f, summaries');
      }
      changed := changed || updated;
      if !changed {
        FixedOnOneMore(program, summaries, functions, i);
      }
    }
    assert functions[..|functions|] == functions;
  }

  /** The loop ends, and what it ends with is the least fixpoint: it is the same for every order of
      the functions, and every claim in it is true of every run. */
  method SummaryFixpoint(program: Program, functions: seq<FnId>) returns (summaries: Summaries)
    requires WellFormedProgram(program)
    ensures forall f :: f in summaries <==> f in functions && f in program
    ensures LeastFixpoint(program, summaries)
    ensures Sound(program, summaries)
  {
    summaries := EmptySummaries(program, functions);
    while true
      invariant forall f :: f in summaries <==> f in functions && f in program
      invariant StepInvariant(program, summaries)
      decreases Unclaimed(program, summaries)
    {
      var changed;
      summaries, changed := SummaryPass(program, functions, summaries);
      if !changed {
        break;
      }
    }
  }

  lemma LeEqual(a: Summaries, b: Summaries)
    requires Le(a, b) && Le(b, a)
    ensures a == b
  {
    assert a.Keys == b.Keys;
    forall f | f in a
      ensures a[f] == b[f]
    {
      assert SummaryLe(a[f], b[f]) && SummaryLe(b[f], a[f]);
      SummariesEqual(a[f], b[f]);
    }
  }

  lemma FixpointIsClosed(program: Program, summaries: Summaries)
    requires Fixpoint(program, summaries)
    ensures Closed(program, summaries)
  {
  }

  /** Two orders of the same functions give the same summaries. */
  lemma OrderIndependent(program: Program, a: Summaries, b: Summaries)
    requires LeastFixpoint(program, a) && LeastFixpoint(program, b) && a.Keys == b.Keys
    ensures a == b
  {
    FixpointIsClosed(program, a);
    FixpointIsClosed(program, b);
    LeEqual(a, b);
  }

  // ----- the entry point does not matter -----

  /** The functions of the program that `f` calls. */
  ghost predicate CallsOnly(program: Program, functions: set<FnId>) {
    forall f, b: nat :: f in functions && f in program && b in program[f].callSites ==>
      (program[f].callSites[b].callee in program ==> program[f].callSites[b].callee in functions)
  }

  ghost predicate AgreeOn(s: Summaries, t: Summaries, f: FnId, program: Program) {
    f in program && forall b: nat :: b in program[f].callSites ==>
      var callee := program[f].callSites[b].callee;
      (callee in s <==> callee in t) && (callee in s ==> s[callee] == t[callee])
  }

  lemma {:induction false} SurvivesAgree(body: Body, s: Summaries, t: Summaries, path: Path, bit: Bit)
    requires forall b: nat :: b in body.callSites ==>
      var callee := body.callSites[b].callee; (callee in s <==> callee in t) && (callee in s ==> s[callee] == t[callee])
    ensures Survives(body, s, path, bit) == Survives(body, t, path, bit)
  {
    if path.Via? {
      SurvivesAgree(body, s, t, path.prefix, bit);
      assert CallKills(body, s, path.from, bit) == CallKills(body, t, path.from, bit);
    }
  }

  /** A summary depends only on the summaries of the functions called. */
  lemma SummaryDependsOnCallees(program: Program, s: Summaries, t: Summaries, f: FnId)
    requires AgreeOn(s, t, f, program)
    ensures SummaryOf(program[f], s) == SummaryOf(program[f], t)
  {
    forall bit
      ensures MustAuth(program[f], s, bit) == MustAuth(program[f], t, bit)
    {
      forall path ensures Survives(program[f], s, path, bit) == Survives(program[f], t, path, bit) {
        SurvivesAgree(program[f], s, t, path, bit);
      }
      assert forall b :: MayReach(program[f], s, b, bit) == MayReach(program[f], t, b, bit);
    }
    SummaryOfMeaning(program[f], s);
    SummaryOfMeaning(program[f], t);
    SummariesEqual(SummaryOf(program[f], s), SummaryOf(program[f], t));
  }

  /** A least fixpoint over more functions, cut down to a set closed under calls, is the least
      fixpoint over that set. */
  lemma RestrictionIsLeast(program: Program, big: Summaries, small: Summaries)
    requires LeastFixpoint(program, big) && LeastFixpoint(program, small)
    requires small.Keys <= big.Keys && CallsOnly(program, small.Keys)
    ensures forall f :: f in small ==> big[f] == small[f]
  {
    var cut: Summaries := map f | f in small :: big[f];
    assert cut.Keys == small.Keys;
    forall f | f in cut
      ensures cut[f] == SummaryOf(program[f], cut)
    {
      assert AgreeOn(big, cut, f, program);
      SummaryDependsOnCallees(program, big, cut, f);
    }
    FixpointIsClosed(program, cut);
    assert Le(small, cut);
    // the other way: patching the small solution into the big one is closed
    var patched: Summaries := big + small;
    assert patched.Keys == big.Keys;
    forall f | f in patched
      ensures SummaryLe(SummaryOf(program[f], patched), patched[f])
    {
      if f in small {
        assert AgreeOn(small, patched, f, program);
        SummaryDependsOnCallees(program, small, patched, f);
      } else {
        assert Le(patched, big);
        SummaryMonotone(program[f], patched, big);
      }
    }
    assert Closed(program, patched);
    assert Le(big, patched);
    forall f | f in small
      ensures big[f] == small[f]
    {
      assert SummaryLe(small[f], cut[f]) && SummaryLe(big[f], patched[f]);
      SummariesEqual(big[f], small[f]);
    }
  }

  /** Recomputing summaries one at a time, whichever changes, ends in the least solution. */
  lemma {:induction false} ClimbToLeast(program: Program, summaries: Summaries) returns (least: Summaries)
    requires WellFormedProgram(program) && StepInvariant(program, summaries)
    ensures least.Keys == summaries.Keys && LeastFixpoint(program, least)
    decreases Unclaimed(program, summaries)
  {
    if Fixpoint(program, summaries) {
      return summaries;
    }
    var f :| f in summaries && summaries[f] != SummaryOf(program[f], summaries);
    var updated := ProperStep(program, summaries, f);
    least := ClimbToLeast(program, updated);
  }

  /** Every set of functions has a least solution. */
  lemma LeastSolutionExists(program: Program, functions: set<FnId>) returns (summaries: Summaries)
    requires WellFormedProgram(program) && functions <= program.Keys
    ensures summaries.Keys == functions && LeastFixpoint(program, summaries)
  {
    var empty := map f | f in functions :: FnSummary({}, false);
    EmptyIsStart(program, empty);
    summaries := ClimbToLeast(program, empty);
  }

  /** The summaries of the functions reachable from an entry point. */
  ghost predicate SummariesFor(program: Program, g: Graph, entry: FnId, summaries: Summaries) {
    && (forall f :: f in summaries <==> f in program && Reachable(Calls(g), entry, f))
    && LeastFixpoint(program, summaries)
  }

  /** Every call site is an edge of the call graph. */
  ghost predicate CallSitesAreEdges(program: Program, g: Graph) {
    forall f, b: nat :: f in program && b in program[f].callSites ==> Calls(g)(f, program[f].callSites[b].callee)
  }

  lemma ReachableIsClosed(program: Program, g: Graph, entry: FnId, summaries: Summaries)
    requires CallSitesAreEdges(program, g) && SummariesFor(program, g, entry, summaries)
    ensures CallsOnly(program, summaries.Keys)
  {
    forall f, b: nat | f in summaries && b in program[f].callSites && program[f].callSites[b].callee in program
      ensures program[f].callSites[b].callee in summaries
    {
      ReachableStep(Calls(g), entry, f, program[f].callSites[b].callee);
    }
  }

  /** A function reached from two entry points gets the same summary from both. */
  lemma EntryPointIndependent(program: Program, g: Graph, entry: FnId, entry': FnId, a: Summaries, b: Summaries,
                              f: FnId)
    requires WellFormedProgram(program) && CallSitesAreEdges(program, g)
    requires SummariesFor(program, g, entry, a) && SummariesFor(program, g, entry', b)
    requires f in a && f in b
    ensures a[f] == b[f]
  {
    var common := LeastSolutionExists(program, a.Keys * b.Keys);
    ReachableIsClosed(program, g, entry, a);
    ReachableIsClosed(program, g, entry', b);
    assert CallsOnly(program, common.Keys);
    RestrictionIsLeast(program, a, common);
    RestrictionIsLeast(program, b, common);
  }

  // ----- the whole pass -----

  datatype Finding = Finding(f: FnId, loc: Location, k: nat)

  method SetToSeq(s: set<FnId>) returns (order: seq<FnId>)
    ensures forall f :: f in order <==> f in s
  {
    order := [];
    var rest := s;
    while rest != {}
      invariant rest <= s
      invariant forall f :: f in order <==> f in s && f !in rest
      decreases rest
    {
      var f :| f in rest;
      order := order + [f];
      rest := rest - {f};
    }
  }

  method LocationsOf(sinks: map<Location, seq<Sink>>) returns (locs: seq<Location>)
    ensures forall loc :: loc in locs <==> loc in sinks
  {
    locs := [];
    var rest := sinks.Keys;
    while rest != {}
      invariant rest <= sinks.Keys
      invariant forall loc :: loc in locs <==> loc in sinks && loc !in rest
      decreases rest
    {
      var loc :| loc in rest;
      locs := locs + [loc];
      rest := rest - {loc};
    }
  }

  /** A sink that is judged, and a bit that it is judged by. */
  ghost predicate Judged(body: Body, loc: Location, k: nat, bit: Bit) {
    && loc in body.sinks && k < |body.sinks[loc]| && body.sinks[loc][k].paramIndex.Some?
    && (bit == CurrentAdmin || bit == Param(body.sinks[loc][k].paramIndex.value))
    && (bit.Param? ==> bit.index < |body.isAddress| && body.isAddress[bit.index])
  }

  /** Every run that comes to the location has authorized the bit before it. */
  ghost predicate AlwaysAuthorized(program: Program, f: FnId, loc: Location, bit: Bit)
    requires f in program
  {
    forall run :: IsRun(program, f, run, loc.block) ==>
      Authorizes(program, f, run, loc.block, bit) || KilledBefore(program[f], loc.block, loc.statementIndex, bit)
  }

  /** The pass for one entry point: exactly the sinks of reachable functions that some path of the
      least-fixpoint analysis reaches unauthorized. No run reaches any other sink unauthorized. */
  method CheckEntryPoint(program: Program, g: Graph, entry: FnId) returns (findings: set<Finding>, summaries: Summaries)
    requires WellFormedProgram(program)
    ensures SummariesFor(program, g, entry, summaries) && Sound(program, summaries)
    ensures forall x :: x in findings <==>
              Reachable(Calls(g), entry, x.f) && x.f in program && SinkReported(program[x.f], summaries, x.loc, x.k)
    ensures forall f, loc, k, bit ::
              (f in summaries && Finding(f, loc, k) !in findings && Judged(program[f], loc, k, bit)) ==>
                AlwaysAuthorized(program, f, loc, bit)
  {
    var reachable := ReachableFunctions(g, entry);
    var functions := SetToSeq(reachable);
    summaries := SummaryFixpoint(program, functions);
    findings := LintFunctions(program, functions, summaries);
    forall f, loc, k, bit | f in summaries && Finding(f, loc, k) !in findings && Judged(program[f], loc, k, bit)
      ensures AlwaysAuthorized(program, f, loc, bit)
    {
      assert !SinkReported(program[f], summaries, loc, k);
      forall run | IsRun(program, f, run, loc.block)
        ensures Authorizes(program, f, run, loc.block, bit) ||
            KilledBefore(program[f], loc.block, loc.statementIndex, bit)
      {
        UnreportedSinkIsAuthorized(program, summaries, f, loc, k, run, bit);
      }
    }
  }

  method LintFunctions(program: Program, functions: seq<FnId>, summaries: Summaries) returns (findings: set<Finding>)
    requires WellFormedProgram(program)
    ensures forall x :: x in findings <==>
              x.f in functions && x.f in program && SinkReported(program[x.f], summaries, x.loc, x.k)
  {
    findings := {};
    for i := 0 to |functions|
      invariant forall x :: x in findings <==>
                  x.f in functions[..i] && x.f in program && SinkReported(program[x.f], summaries, x.loc, x.k)
    {
      var f := functions[i];
      assert functions[..i + 1] == functions[..i] + [f];
      if f !in program {
        continue;
      }
      var locs := LocationsOf(program[f].sinks);
      var here := LintSinksForFn(program[f], summaries, locs);
      var found := set x | x in here :: Finding(f, x.0, x.1);
      forall x: Finding
        ensures x in found <==> x.f == f && SinkReported(program[f], summaries, x.loc, x.k)
      {
        if x.f == f && (x.loc, x.k) in here {
          var y := (x.loc, x.k);
          assert y in here && x == Finding(f, y.0, y.1);
        }
      }
      findings := findings + found;
    }
    assert functions[..|functions|] == functions;
  }
}
