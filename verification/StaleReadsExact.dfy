/** The branch-merging walk reports exactly the stale reads of some path. */
module StaleReadsExact {
  import opened Options
  import opened StaleReads

  ghost predicate ModifiedIn(ps: set<PathState>, v: HirId) {
    exists p :: p in ps && v in p.bound && p.bound[v].modified
  }

  ghost predicate StaleIn(ps: set<PathState>, site: Site) {
    exists p :: p in ps && site in p.stale
  }

  /** The analysis tracks what the paths have bound, under the same keys. */
  ghost predicate Tracks(a: Analysis, ps: set<PathState>, sc: Scope) {
    && ps != {}
    && sc.live <= sc.ever && a.keyMap.Keys == sc.ever && a.dirty.Keys <= sc.ever
    && (forall v :: v in sc.live ==> v in a.dirty)
    && (forall p, v :: p in ps && v in sc.live ==> v in p.bound)
    && (forall p, v :: p in ps && v in p.bound ==> v in a.keyMap && a.keyMap[v] == p.bound[v].key)
  }

  /** The one analysis state stands for the set of path states: a local is modified in it exactly when
      it is on some path, and reports are those made before (`seen`) and those of the paths. */
  ghost predicate Stands(a: Analysis, ps: set<PathState>, sc: Scope, seen: set<Site>) {
    && Tracks(a, ps, sc)
    && (forall v :: v in a.dirty && a.dirty[v] == Modified <==> ModifiedIn(ps, v))
    && (forall site :: site in a.findings <==> site in seen || StaleIn(ps, site))
  }

  /** Keys and reports are only ever added. */
  ghost predicate Grows(a: Analysis, b: Analysis) {
    && a.findings <= b.findings
    && forall v :: v in a.keyMap ==> v in b.keyMap && b.keyMap[v] == a.keyMap[v]
  }

  ghost predicate Wider(sc: Scope, sc': Scope) {
    sc.live <= sc'.live && sc.ever <= sc'.ever
  }

  // ----- one event -----

  lemma StepsImage(ps: set<PathState>, ev: Event)
    ensures forall p :: p in ps ==> Step(p, ev) in Steps(ps, ev)
    ensures ps != {} ==> Steps(ps, ev) != {}
  {
    if p :| p in ps {
      assert Step(p, ev) in Steps(ps, ev);
    }
  }

  /** What an event does to the modified locals of all paths together. */
  lemma StepsModified(ps: set<PathState>, ev: Event, v: HirId)
    ensures ModifiedIn(Steps(ps, ev), v) <==>
        exists p :: p in ps && v in Step(p, ev).bound && Step(p, ev).bound[v].modified
  {
    StepsImage(ps, ev);
  }

  lemma StepsStale(ps: set<PathState>, ev: Event, site: Site)
    ensures StaleIn(Steps(ps, ev), site) <==> exists p :: p in ps && site in Step(p, ev).stale
  {
    StepsImage(ps, ev);
  }

  lemma EventStands(a: Analysis, ps: set<PathState>, sc: Scope, seen: set<Site>, ev: Event)
    requires Stands(a, ps, sc, seen) && EventOk(sc, ev)
    ensures Stands(Transfer(a, ev), Steps(ps, ev), ScopeStep(sc, ev), seen)
    ensures Grows(a, Transfer(a, ev)) && Wider(sc, ScopeStep(sc, ev))
  {
    StepsImage(ps, ev);
    match ev
    case Bind(_, _) => BindStands(a, ps, sc, seen, ev);
    case Modify(_) => ModifyStands(a, ps, sc, seen, ev);
    case Read(_, _) => ReadStands(a, ps, sc, seen, ev);
    case Write(_) => WriteStands(a, ps, sc, seen, ev);
  }

  /** Reads and writes bind nothing. */
  lemma StorageCallTracks(a: Analysis, ps: set<PathState>, sc: Scope, ev: Event)
    requires Tracks(a, ps, sc) && (ev.Read? || ev.Write?)
    ensures Tracks(Transfer(a, ev), Steps(ps, ev), sc)
  {
    StepsImage(ps, ev);
    forall p | p in ps
      ensures Step(p, ev).bound.Keys == p.bound.Keys
      ensures forall v :: v in p.bound ==> Step(p, ev).bound[v].key == p.bound[v].key
    {
    }
  }

  lemma BindStands(a: Analysis, ps: set<PathState>, sc: Scope, seen: set<Site>, ev: Event)
    requires Stands(a, ps, sc, seen) && EventOk(sc, ev) && ev.Bind?
    ensures Stands(Transfer(a, ev), Steps(ps, ev), ScopeStep(sc, ev), seen)
  {
    StepsImage(ps, ev);
    var a', ps' := Transfer(a, ev), Steps(ps, ev);
    forall v
      ensures v in a'.dirty && a'.dirty[v] == Modified <==> ModifiedIn(ps', v)
    {
      StepsModified(ps, ev, v);
      if v == ev.v {
        assert !ModifiedIn(ps', v);
      } else {
        assert ModifiedIn(ps', v) <==> ModifiedIn(ps, v);
      }
    }
    forall site
      ensures site in a'.findings <==> site in seen || StaleIn(ps', site)
    {
      StaleAfterOther(ps, ev, site);
    }
  }

  lemma ModifyStands(a: Analysis, ps: set<PathState>, sc: Scope, seen: set<Site>, ev: Event)
    requires Stands(a, ps, sc, seen) && EventOk(sc, ev) && ev.Modify?
    ensures Stands(Transfer(a, ev), Steps(ps, ev), ScopeStep(sc, ev), seen)
  {
    StepsImage(ps, ev);
    var a', ps' := Transfer(a, ev), Steps(ps, ev);
    forall v
      ensures v in a'.dirty && a'.dirty[v] == Modified <==> ModifiedIn(ps', v)
    {
      StepsModified(ps, ev, v);
      if v == ev.v && v in sc.live {
        var p :| p in ps;
        assert v in Step(p, ev).bound && Step(p, ev).bound[v].modified;
      } else if v == ev.v {
        assert forall p :: p in ps ==> v !in p.bound;
      } else {
        assert ModifiedIn(ps', v) <==> ModifiedIn(ps, v);
      }
    }
    forall site
      ensures site in a'.findings <==> site in seen || StaleIn(ps', site)
    {
      StaleAfterOther(ps, ev, site);
    }
  }

  /** A key is unsaved in the analysis exactly when it is on some path. */
  lemma StaleForSomePath(a: Analysis, ps: set<PathState>, sc: Scope, seen: set<Site>, key: HirId)
    requires Stands(a, ps, sc, seen)
    ensures StaleFor(a, key) <==> exists p :: p in ps && HoldsUnsaved(p, key)
  {
    if StaleFor(a, key) {
      var v :| v in a.dirty && a.dirty[v] == Modified && v in a.keyMap && a.keyMap[v] == key;
      assert ModifiedIn(ps, v);
      var p :| p in ps && v in p.bound && p.bound[v].modified;
      assert p.bound[v] == Var(key, true);
      assert HoldsUnsaved(p, key);
    }
    if p :| p in ps && HoldsUnsaved(p, key) {
      var v :| v in p.bound && p.bound[v] == Var(key, true);
      assert ModifiedIn(ps, v);
    }
  }

  lemma ReadStands(a: Analysis, ps: set<PathState>, sc: Scope, seen: set<Site>, ev: Event)
    requires Stands(a, ps, sc, seen) && ev.Read?
    ensures Stands(Transfer(a, ev), Steps(ps, ev), ScopeStep(sc, ev), seen)
  {
    StorageCallTracks(a, ps, sc, ev);
    var a', ps' := Transfer(a, ev), Steps(ps, ev);
    StaleForSomePath(a, ps, sc, seen, ev.key);
    forall v
      ensures ModifiedIn(ps', v) <==> ModifiedIn(ps, v)
    {
      ModifiedAfterRead(ps, ev, v);
    }
    forall site
      ensures site in a'.findings <==> site in seen || StaleIn(ps', site)
    {
      StaleAfterRead(ps, ev, site);
    }
  }

  lemma ModifiedAfterRead(ps: set<PathState>, ev: Event, v: HirId)
    requires ev.Read?
    ensures ModifiedIn(Steps(ps, ev), v) <==> ModifiedIn(ps, v)
  {
    StepsModified(ps, ev, v);
    assert forall p :: p in ps ==> Step(p, ev).bound == p.bound;
  }

  lemma StaleAfterRead(ps: set<PathState>, ev: Event, site: Site)
    requires ev.Read?
    ensures StaleIn(Steps(ps, ev), site) <==>
            StaleIn(ps, site) || (site == ev.site && exists p :: p in ps && HoldsUnsaved(p, ev.key))
  {
    StepsStale(ps, ev, site);
    assert forall p :: p in ps ==>
        (site in Step(p, ev).stale <==> site in p.stale || (site == ev.site && HoldsUnsaved(p, ev.key)));
  }

  /** Other events leave the reports alone. */
  lemma StaleAfterOther(ps: set<PathState>, ev: Event, site: Site)
    requires !ev.Read?
    ensures StaleIn(Steps(ps, ev), site) <==> StaleIn(ps, site)
  {
    StepsStale(ps, ev, site);
    assert forall p :: p in ps ==> Step(p, ev).stale == p.stale;
  }

  lemma WriteStands(a: Analysis, ps: set<PathState>, sc: Scope, seen: set<Site>, ev: Event)
    requires Stands(a, ps, sc, seen) && ev.Write?
    ensures Stands(Transfer(a, ev), Steps(ps, ev), ScopeStep(sc, ev), seen)
  {
    StorageCallTracks(a, ps, sc, ev);
    var a', ps' := Transfer(a, ev), Steps(ps, ev);
    forall v
      ensures v in a'.dirty && a'.dirty[v] == Modified <==> ModifiedIn(ps', v)
    {
      StepsModified(ps, ev, v);
      if v in a.keyMap && a.keyMap[v] == ev.key {
        assert !ModifiedIn(ps', v);
      } else {
        assert ModifiedIn(ps', v) <==> ModifiedIn(ps, v);
      }
    }
    forall site
      ensures site in a'.findings <==> site in seen || StaleIn(ps', site)
    {
      StaleAfterOther(ps, ev, site);
    }
  }

  lemma {:induction false} EventsStand(a: Analysis, ps: set<PathState>, sc: Scope, seen: set<Site>, evs: seq<Event>)
    requires Stands(a, ps, sc, seen) && EventsOk(sc, evs)
    ensures Stands(TransferAll(a, evs), StepsAll(ps, evs), ScopeSteps(sc, evs), seen)
    ensures Grows(a, TransferAll(a, evs)) && Wider(sc, ScopeSteps(sc, evs))
    decreases |evs|
  {
    if evs != [] {
      EventStands(a, ps, sc, seen, evs[0]);
      EventsStand(Transfer(a, evs[0]), Steps(ps, evs[0]), ScopeStep(sc, evs[0]), seen, evs[1..]);
    }
  }

  // ----- branches -----

  /** Going back to the state before a branch, with the keys and reports collected meanwhile. */
  lemma RestartStands(a: Analysis, ps: set<PathState>, sc: Scope, seen: set<Site>, b: Analysis, ever: set<HirId>)
    requires Stands(a, ps, sc, seen) && Grows(a, b) && b.keyMap.Keys == ever && sc.ever <= ever
    ensures Stands(b.(dirty := a.dirty), ps, Scope(sc.live, ever), b.findings)
  {
  }

  /** The merge of two states stands for the paths of both. */
  lemma MergeStands(a: Analysis, ps: set<PathState>, sc: Scope, seen: set<Site>,
                    b: Analysis, ps': set<PathState>, sc': Scope, live: set<HirId>)
    requires Stands(a, ps, sc, seen) && Stands(b, ps', sc', a.findings)
    requires Grows(a, b) && live <= sc.live && live <= sc'.live
    ensures Stands(b.(dirty := MergeStates(a.dirty, b.dirty)), ps + ps', Scope(live, sc'.ever), seen)
  {
    forall v
      ensures ModifiedIn(ps + ps', v) <==> ModifiedIn(ps, v) || ModifiedIn(ps', v)
    {
    }
    forall site
      ensures StaleIn(ps + ps', site) <==> StaleIn(ps, site) || StaleIn(ps', site)
    {
    }
  }

  // ----- the whole walk -----

  lemma {:induction false} VisitStands(e: Expr, a: Analysis, ps: set<PathState>, sc: Scope, seen: set<Site>)
    requires Stands(a, ps, sc, seen) && WellScoped(e, sc)
    ensures Stands(Visit(e, a), Paths(e, ps, true), After(e, sc), seen)
    ensures Grows(a, Visit(e, a)) && Wider(sc, After(e, sc))
    decreases e, 1, 0
  {
    if e.If? {
      IfStands(e, a, ps, sc, seen);
    } else if e.Match? && e.normal {
      VisitStands(e.scrutinee, a, ps, sc, seen);
      var a1, ps1, sc1 := Visit(e.scrutinee, a), Paths(e.scrutinee, ps, true), After(e.scrutinee, sc);
      RestartStands(a1, ps1, sc1, seen, a1, sc1.ever);
      assert a1.(dirty := a1.dirty) == a1 && Scope(sc1.live, sc1.ever) == sc1;
      ArmsStand(e, e.arms, KeyOf(e.scrutinee), a1.dirty, a1, ps1, ps1, sc1, seen);
    } else {
      ChildrenSmaller(e);
      EventsStand(a, ps, sc, seen, EventsOf(e));
      AllStand(e, Children(e), TransferAll(a, EventsOf(e)), StepsAll(ps, EventsOf(e)), ScopeSteps(sc, EventsOf(e)),
               seen);
    }
  }

  lemma {:induction false} IfStands(e: Expr, a: Analysis, ps: set<PathState>, sc: Scope, seen: set<Site>)
    requires e.If? && Stands(a, ps, sc, seen) && WellScoped(e, sc)
    ensures Stands(Visit(e, a), Paths(e, ps, true), After(e, sc), seen)
    ensures Grows(a, Visit(e, a)) && Wider(sc, After(e, sc))
    decreases e, 0, 0
  {
    VisitStands(e.cond, a, ps, sc, seen);
    var a1, ps1, sc1 := Visit(e.cond, a), Paths(e.cond, ps, true), After(e.cond, sc);
    VisitStands(e.thenBranch, a1, ps1, sc1, seen);
    var thn, ps2, sc2 := Visit(e.thenBranch, a1), Paths(e.thenBranch, ps1, true), After(e.thenBranch, sc1);
    RestartStands(a1, ps1, sc1, seen, thn, sc2.ever);
    var restart, scR := thn.(dirty := a1.dirty), sc2.(live := sc1.live);
    if e.elseBranch.Some? {
      VisitStands(e.elseBranch.value, restart, ps1, scR, thn.findings);
      MergeStands(thn, ps2, sc2, seen, Visit(e.elseBranch.value, restart), Paths(e.elseBranch.value, ps1, true),
                  After(e.elseBranch.value, scR), sc1.live);
    } else {
      MergeStands(thn, ps2, sc2, seen, restart, ps1, scR, sc1.live);
    }
  }

  lemma {:induction false} AllStand(parent: Expr, items: seq<Expr>, a: Analysis, ps: set<PathState>, sc: Scope,
                                    seen: set<Site>)
    requires forall i :: 0 <= i < |items| ==> items[i] < parent
    requires Stands(a, ps, sc, seen) && WellScopedAll(parent, items, sc)
    ensures Stands(VisitAll(parent, items, a), PathsAll(parent, items, ps, true), AfterAll(parent, items, sc), seen)
    ensures Grows(a, VisitAll(parent, items, a)) && Wider(sc, AfterAll(parent, items, sc))
    decreases parent, 0, |items|
  {
    if items != [] {
      VisitStands(items[0], a, ps, sc, seen);
      AllStand(parent, items[1..], Visit(items[0], a), Paths(items[0], ps, true), After(items[0], sc), seen);
    }
  }

  lemma {:induction false} ArmStands(parent: Expr, arm: Arm, key: Option<HirId>, a: Analysis, ps: set<PathState>,
                                     sc: Scope, seen: set<Site>)
    requires arm < parent && Stands(a, ps, sc, seen) && WellScopedArm(parent, arm, key, sc)
    ensures Stands(VisitArm(parent, arm, key, a), PathsArm(parent, arm, key, ps, true),
                   AfterArm(parent, arm, key, sc), seen)
    ensures Grows(a, VisitArm(parent, arm, key, a)) && Wider(sc, AfterArm(parent, arm, key, sc))
    decreases parent, 0, 0
  {
    var a1, ps1, sc1 := a, ps, sc;
    if key.Some? {
      var binds := BindAll(arm.armPat, key.value);
      EventsStand(a, ps, sc, seen, binds);
      a1, ps1, sc1 := TransferAll(a, binds), StepsAll(ps, binds), ScopeSteps(sc, binds);
    }
    if arm.guard.Some? {
      VisitStands(arm.guard.value, a1, ps1, sc1, seen);
      a1, ps1, sc1 := Visit(arm.guard.value, a1), Paths(arm.guard.value, ps1, true), After(arm.guard.value, sc1);
    }
    VisitStands(arm.body, a1, ps1, sc1, seen);
  }

  /** `done` are the paths merged so far, `ps` those that enter the next arm. */
  lemma {:induction false} ArmsStand(parent: Expr, arms: seq<Arm>, key: Option<HirId>, pre: Dirty, a: Analysis,
                                     ps: set<PathState>, done: set<PathState>, sc: Scope, seen: set<Site>)
    requires forall i :: 0 <= i < |arms| ==> arms[i] < parent
    requires Stands(a, done, sc, seen) && Stands(a.(dirty := pre), ps, sc, a.findings)
    requires WellScopedArms(parent, arms, key, sc)
    ensures Stands(VisitArms(parent, arms, key, pre, a), done + PathsArms(parent, arms, key, ps, true),
                   AfterArms(parent, arms, key, sc), seen)
    ensures Grows(a, VisitArms(parent, arms, key, pre, a)) && Wider(sc, AfterArms(parent, arms, key, sc))
    decreases parent, 0, |arms|
  {
    if arms == [] {
      assert done + {} == done;
    } else {
      var start := a.(dirty := pre);
      ArmStands(parent, arms[0], key, start, ps, sc, a.findings);
      var after, psA := VisitArm(parent, arms[0], key, start), PathsArm(parent, arms[0], key, ps, true);
      var scA := AfterArm(parent, arms[0], key, sc);
      assert Grows(a, after);
      MergeStands(a, done, sc, seen, after, psA, scA, sc.live);
      RestartStands(start, ps, sc, a.findings, after, scA.ever);
      var merged := after.(dirty := MergeStates(a.dirty, after.dirty));
      assert merged.(dirty := pre) == after.(dirty := pre);
      ArmsStand(parent, arms[1..], key, pre, merged, ps, done + psA, scA.(live := sc.live), seen);
      assert done + psA + PathsArms(parent, arms[1..], key, ps, true) == done + PathsArms(parent, arms, key, ps, true);
    }
  }

  const START := PathState(map[], {})
  const NO_SCOPE := Scope({}, {})
  const INITIAL := Analysis(map[], map[], {})

  /** Branch-exactness: in a well-scoped body a read is reported exactly when some choice of branches,
      a match counting as having an empty arm too, reads a key that it holds modified and unsaved. */
  lemma ReportedIffStaleOnSomePath(body: Expr, site: Site)
    requires WellScoped(body, NO_SCOPE)
    ensures site in Visit(body, INITIAL).findings <==> exists p :: p in Paths(body, {START}, true) && site in p.stale
  {
    assert forall v :: !ModifiedIn({START}, v);
    assert forall s :: !StaleIn({START}, s);
    VisitStands(body, INITIAL, {START}, NO_SCOPE, {});
    assert StaleIn(Paths(body, {START}, true), site) <==>
        exists p :: p in Paths(body, {START}, true) && site in p.stale;
  }

  // ----- real executions take one of the arms -----

  lemma {:induction false} StepsMonotone(ps: set<PathState>, qs: set<PathState>, evs: seq<Event>)
    requires ps <= qs
    ensures StepsAll(ps, evs) <= StepsAll(qs, evs)
    decreases |evs|
  {
    if evs != [] {
      assert Steps(ps, evs[0]) <= Steps(qs, evs[0]);
      StepsMonotone(Steps(ps, evs[0]), Steps(qs, evs[0]), evs[1..]);
    }
  }

  /** Every real path is one of the paths the walk stands for. */
  lemma {:induction false} RealPathsCovered(e: Expr, ps: set<PathState>, qs: set<PathState>)
    requires ps <= qs
    ensures Paths(e, ps, false) <= Paths(e, qs, true)
    decreases e, 1, 0
  {
    if e.If? {
      RealPathsCovered(e.cond, ps, qs);
      RealPathsCovered(e.thenBranch, Paths(e.cond, ps, false), Paths(e.cond, qs, true));
      if e.elseBranch.Some? {
        RealPathsCovered(e.elseBranch.value, Paths(e.cond, ps, false), Paths(e.cond, qs, true));
      }
    } else if e.Match? && e.normal {
      RealPathsCovered(e.scrutinee, ps, qs);
      RealArmsCovered(e, e.arms, KeyOf(e.scrutinee), Paths(e.scrutinee, ps, false), Paths(e.scrutinee, qs, true));
    } else {
      ChildrenSmaller(e);
      StepsMonotone(ps, qs, EventsOf(e));
      RealAllCovered(e, Children(e), StepsAll(ps, EventsOf(e)), StepsAll(qs, EventsOf(e)));
    }
  }

  lemma {:induction false} RealAllCovered(parent: Expr, items: seq<Expr>, ps: set<PathState>, qs: set<PathState>)
    requires ps <= qs && forall i :: 0 <= i < |items| ==> items[i] < parent
    ensures PathsAll(parent, items, ps, false) <= PathsAll(parent, items, qs, true)
    decreases parent, 0, |items|
  {
    if items != [] {
      RealPathsCovered(items[0], ps, qs);
      RealAllCovered(parent, items[1..], Paths(items[0], ps, false), Paths(items[0], qs, true));
    }
  }

  lemma {:induction false} RealArmsCovered(parent: Expr, arms: seq<Arm>, key: Option<HirId>, ps: set<PathState>,
                                           qs: set<PathState>)
    requires ps <= qs && forall i :: 0 <= i < |arms| ==> arms[i] < parent
    ensures PathsArms(parent, arms, key, ps, false) <= PathsArms(parent, arms, key, qs, true)
    decreases parent, 0, |arms|
  {
    if arms != [] {
      var arm := arms[0];
      var binds := if key.Some? then BindAll(arm.armPat, key.value) else [];
      StepsMonotone(ps, qs, binds);
      var ps1, qs1 := StepsAll(ps, binds), StepsAll(qs, binds);
      if arm.guard.Some? {
        RealPathsCovered(arm.guard.value, ps1, qs1);
        RealPathsCovered(arm.body, Paths(arm.guard.value, ps1, false), Paths(arm.guard.value, qs1, true));
      } else {
        RealPathsCovered(arm.body, ps1, qs1);
      }
      RealArmsCovered(parent, arms[1..], key, ps, qs);
    }
  }

  /** No stale read of a real choice of branches is missed. */
  lemma RealStaleReadsReported(body: Expr, site: Site, p: PathState)
    requires WellScoped(body, NO_SCOPE) && p in Paths(body, {START}, false) && site in p.stale
    ensures site in Visit(body, INITIAL).findings
  {
    RealPathsCovered(body, {START}, {START});
    ReportedIffStaleOnSomePath(body, site);
  }
}
