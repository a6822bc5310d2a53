/** What it costs that a match counts as having an empty arm, and where it costs nothing. */
module StaleReadsArms {
  import opened Options
  import opened StaleReads
  import opened StaleReadsExact

  // ----- a false report -----

  /** `storage.get(&k)` or `storage.set(&k, ..)` with local 0 as the key. */
  function KeyCall(name: Name, site: Site): Expr {
    MethodCall(name, Literal(9), [Path(0)], true, false, site)
  }

  /** `let v = storage.get(&k); v = ..; match .. { _ => storage.set(&k, ..) }; storage.get(&k)`, with `v` as local 1. */
  function SavedInTheOnlyArm(site: Site): Expr {
    Chain(Binding(), Assignment(), SavingMatch(), KeyCall(Get, site))
  }

  function Chain(a: Expr, b: Expr, c: Expr, d: Expr): Expr {
    Sequence([a, Sequence([b, Sequence([c, d])])])
  }

  function Binding(): Expr {
    LetStmt([1], Some(KeyCall(Get, 0)), None)
  }

  function SavingMatch(): Expr {
    Match(Literal(9), [Arm([], None, KeyCall(Set, 0))], true)
  }

  // its paths, node by node

  lemma LeafPaths(e: Expr, ps: set<PathState>, fallThrough: bool)
    requires e.Path? || e.Literal?
    ensures Paths(e, ps, fallThrough) == ps
  {
    assert Children(e) == [] && EventsOf(e) == [];
  }

  lemma ItemsPaths(parent: Expr, first: Expr, rest: seq<Expr>, ps: set<PathState>, fallThrough: bool)
    requires first < parent && forall i :: 0 <= i < |rest| ==> rest[i] < parent
    ensures PathsAll(parent, [first] + rest, ps, fallThrough) ==
            PathsAll(parent, rest, Paths(first, ps, fallThrough), fallThrough)
  {
    assert ([first] + rest)[1..] == rest;
  }

  lemma TwoItemsPaths(parent: Expr, first: Expr, second: Expr, ps: set<PathState>, fallThrough: bool)
    requires first < parent && second < parent
    ensures PathsAll(parent, [first, second], ps, fallThrough) ==
        Paths(second, Paths(first, ps, fallThrough), fallThrough)
  {
    ItemsPaths(parent, first, [second], ps, fallThrough);
    ItemsPaths(parent, second, [], Paths(first, ps, fallThrough), fallThrough);
    assert [first, second] == [first] + [second] && [second] == [second] + [];
  }

  lemma PairPaths(a: Expr, b: Expr, ps: set<PathState>, fallThrough: bool)
    ensures Paths(Sequence([a, b]), ps, fallThrough) == Paths(b, Paths(a, ps, fallThrough), fallThrough)
  {
    var e := Sequence([a, b]);
    SequenceIsItsItems(e, ps, fallThrough);
    assert e.items[0] == a && e.items[1] == b;
    TwoItemsPaths(e, a, b, ps, fallThrough);
  }

  lemma SequenceIsItsItems(e: Expr, ps: set<PathState>, fallThrough: bool)
    requires e.Sequence?
    ensures Paths(e, ps, fallThrough) == PathsAll(e, e.items, ps, fallThrough)
  {
    ChildrenSmaller(e);
  }

  lemma ChainPaths(a: Expr, b: Expr, c: Expr, d: Expr, ps0: set<PathState>, ps1: set<PathState>, ps2: set<PathState>,
                   ps3: set<PathState>, fallThrough: bool)
    requires Paths(a, ps0, fallThrough) == ps1 && Paths(b, ps1, fallThrough) == ps2 && Paths(c, ps2, fallThrough) == ps3
    ensures Paths(Chain(a, b, c, d), ps0, fallThrough) == Paths(d, ps3, fallThrough)
  {
    PairPaths(c, d, ps2, fallThrough);
    PairPaths(b, Sequence([c, d]), ps1, fallThrough);
    PairPaths(a, Sequence([b, Sequence([c, d])]), ps0, fallThrough);
  }

  lemma EventPaths(ps: set<PathState>, ev: Event)
    ensures StepsAll(ps, [ev]) == Steps(ps, ev)
  {
    assert [ev][1..] == [];
  }

  function KeyEvent(name: Name, site: Site): Event
    requires name == Get || name == Set
  {
    if name == Get then Read(0, site) else Write(0)
  }

  lemma KeyCallEvents(name: Name, site: Site)
    requires name == Get || name == Set
    ensures EventsOf(KeyCall(name, site)) == [KeyEvent(name, site)]
  {
    assert [Path(0)][1..] == [];
    assert MutBorrows([Path(0)]) == MutBorrows([]) == [];
  }

  lemma KeyCallPaths(name: Name, site: Site, ps: set<PathState>, fallThrough: bool)
    requires name == Get || name == Set
    ensures Paths(KeyCall(name, site), ps, fallThrough) == Steps(ps, KeyEvent(name, site))
  {
    var e, qs := KeyCall(name, site), Steps(ps, KeyEvent(name, site));
    KeyCallEvents(name, site);
    EventPaths(ps, KeyEvent(name, site));
    assert Children(e) == [Literal(9), Path(0)];
    TwoItemsPaths(e, Literal(9), Path(0), qs, fallThrough);
    LeafPaths(Literal(9), qs, fallThrough);
    LeafPaths(Path(0), qs, fallThrough);
  }

  lemma BindingEvents()
    ensures EventsOf(Binding()) == [Bind(1, 0)] && Children(Binding()) == [KeyCall(Get, 0)]
  {
    assert BindAll([1], 0) == [Bind(1, 0)];
  }

  lemma BindingPaths(ps: set<PathState>, fallThrough: bool)
    ensures Paths(Binding(), ps, fallThrough) == Steps(Steps(ps, Bind(1, 0)), Read(0, 0))
  {
    BindingEvents();
    EventPaths(ps, Bind(1, 0));
    assert [KeyCall(Get, 0)][1..] == [];
    KeyCallPaths(Get, 0, Steps(ps, Bind(1, 0)), fallThrough);
  }

  function Assignment(): Expr {
    Assign(Path(1), Literal(9))
  }

  lemma AssignmentPaths(ps: set<PathState>, fallThrough: bool)
    ensures Paths(Assignment(), ps, fallThrough) == Steps(ps, Modify(1))
  {
    var qs := Steps(ps, Modify(1));
    EventPaths(ps, Modify(1));
    TwoItemsPaths(Assignment(), Literal(9), Path(1), qs, fallThrough);
    LeafPaths(Literal(9), qs, fallThrough);
    LeafPaths(Path(1), qs, fallThrough);
  }

  lemma MatchPaths(ps: set<PathState>, fallThrough: bool)
    ensures Paths(SavingMatch(), ps, fallThrough) == (if fallThrough then ps else {}) + Steps(ps, Write(0))
  {
    var m := SavingMatch();
    LeafPaths(m.scrutinee, ps, fallThrough);
    KeyCallPaths(Set, 0, ps, fallThrough);
    assert KeyOf(m.scrutinee) == None && m.arms[1..] == [];
    assert PathsArm(m, m.arms[0], None, ps, fallThrough) == Steps(ps, Write(0));
    assert PathsArms(m, m.arms[1..], None, ps, fallThrough) == {};
  }

  lemma OnlyPath(p: PathState, ev: Event)
    ensures Steps({p}, ev) == {Step(p, ev)}
  {
  }

  const SAVED := PathState(map[1 := Var(0, false)], {})
  const UNSAVED := PathState(map[1 := Var(0, true)], {})

  lemma BoundFirst()
    ensures Steps(Steps({START}, Bind(1, 0)), Read(0, 0)) == {SAVED}
  {
    OnlyPath(START, Bind(1, 0));
    assert Step(START, Bind(1, 0)) == SAVED;
    OnlyPath(SAVED, Read(0, 0));
    assert !HoldsUnsaved(SAVED, 0);
  }

  lemma ThenModified()
    ensures Steps({SAVED}, Modify(1)) == {UNSAVED}
  {
    OnlyPath(SAVED, Modify(1));
    assert Step(SAVED, Modify(1)).bound == UNSAVED.bound;
  }

  lemma WrittenBack()
    ensures Steps({UNSAVED}, Write(0)) == {SAVED}
  {
    OnlyPath(UNSAVED, Write(0));
    assert Step(UNSAVED, Write(0)).bound == SAVED.bound;
  }

  /** The paths before the last read: the value is saved, but with the empty arm there is one more, where it is not. */
  function BeforeTheLastRead(fallThrough: bool): set<PathState> {
    (if fallThrough then {UNSAVED} else {}) + {SAVED}
  }

  lemma BodyPaths(site: Site, fallThrough: bool)
    ensures Paths(SavedInTheOnlyArm(site), {START}, fallThrough) == Steps(BeforeTheLastRead(fallThrough), Read(0, site))
  {
    var ps := BeforeTheLastRead(fallThrough);
    FirstPaths(fallThrough);
    MatchPaths({UNSAVED}, fallThrough);
    WrittenBack();
    ChainPaths(Binding(), Assignment(), SavingMatch(), KeyCall(Get, site), {START}, {SAVED}, {UNSAVED}, ps,
               fallThrough);
    KeyCallPaths(Get, site, ps, fallThrough);
  }

  lemma FirstPaths(fallThrough: bool)
    ensures Paths(Binding(), {START}, fallThrough) == {SAVED} && Paths(Assignment(), {SAVED}, fallThrough) == {UNSAVED}
  {
    BindingPaths({START}, fallThrough);
    BoundFirst();
    AssignmentPaths({SAVED}, fallThrough);
    ThenModified();
  }

  // its scoping, node by node

  const BOUND := Scope({1}, {1})

  lemma LeafScoped(e: Expr, sc: Scope)
    requires e.Path? || e.Literal?
    ensures After(e, sc) == sc && WellScoped(e, sc)
  {
    assert Children(e) == [] && EventsOf(e) == [];
  }

  lemma EventScoped(sc: Scope, ev: Event)
    ensures ScopeSteps(sc, [ev]) == ScopeStep(sc, ev) && EventsOk(sc, [ev]) == EventOk(sc, ev)
  {
    assert [ev][1..] == [];
  }

  lemma ItemsScoped(parent: Expr, first: Expr, rest: seq<Expr>, sc: Scope)
    requires first < parent && forall i :: 0 <= i < |rest| ==> rest[i] < parent
    requires WellScoped(first, sc) && WellScopedAll(parent, rest, After(first, sc))
    ensures WellScopedAll(parent, [first] + rest, sc)
    ensures AfterAll(parent, [first] + rest, sc) == AfterAll(parent, rest, After(first, sc))
  {
    assert ([first] + rest)[1..] == rest;
  }

  lemma KeyCallScoped(name: Name, site: Site, sc: Scope)
    requires name == Get || name == Set
    ensures After(KeyCall(name, site), sc) == sc && WellScoped(KeyCall(name, site), sc)
  {
    var e := KeyCall(name, site);
    KeyCallEvents(name, site);
    EventScoped(sc, KeyEvent(name, site));
    LeafScoped(Literal(9), sc);
    LeafScoped(Path(0), sc);
    ItemsScoped(e, Path(0), [], sc);
    ItemsScoped(e, Literal(9), [Path(0)] + [], sc);
    assert Children(e) == [Literal(9)] + ([Path(0)] + []);
  }

  lemma BindingScoped()
    ensures After(Binding(), NO_SCOPE) == BOUND && WellScoped(Binding(), NO_SCOPE)
  {
    BindingEvents();
    EventScoped(NO_SCOPE, Bind(1, 0));
    KeyCallScoped(Get, 0, BOUND);
    ItemsScoped(Binding(), KeyCall(Get, 0), [], BOUND);
    assert [KeyCall(Get, 0)] + [] == [KeyCall(Get, 0)];
  }

  lemma AssignmentScoped()
    ensures After(Assignment(), BOUND) == BOUND && WellScoped(Assignment(), BOUND)
  {
    var e := Assignment();
    EventScoped(BOUND, Modify(1));
    LeafScoped(Literal(9), BOUND);
    LeafScoped(Path(1), BOUND);
    ItemsScoped(e, Path(1), [], BOUND);
    ItemsScoped(e, Literal(9), [Path(1)] + [], BOUND);
    assert Children(e) == [Literal(9)] + ([Path(1)] + []);
  }

  lemma MatchScoped()
    ensures After(SavingMatch(), BOUND) == BOUND && WellScoped(SavingMatch(), BOUND)
  {
    var m := SavingMatch();
    LeafScoped(m.scrutinee, BOUND);
    KeyCallScoped(Set, 0, BOUND);
    assert KeyOf(m.scrutinee) == None && m.arms[1..] == [];
    assert AfterArm(m, m.arms[0], None, BOUND) == BOUND && WellScopedArm(m, m.arms[0], None, BOUND);
  }

  lemma PairScoped(a: Expr, b: Expr, sc: Scope)
    requires WellScoped(a, sc) && WellScoped(b, After(a, sc))
    ensures WellScoped(Sequence([a, b]), sc) && After(Sequence([a, b]), sc) == After(b, After(a, sc))
  {
    var e := Sequence([a, b]);
    SequenceScoped(e, sc);
    assert e.items[0] == a && e.items[1] == b && e.items == [a] + ([b] + []);
    ItemsScoped(e, b, [], After(a, sc));
    ItemsScoped(e, a, [b] + [], sc);
  }

  lemma SequenceScoped(e: Expr, sc: Scope)
    requires e.Sequence?
    ensures WellScoped(e, sc) == WellScopedAll(e, e.items, sc) && After(e, sc) == AfterAll(e, e.items, sc)
  {
    ChildrenSmaller(e);
  }

  lemma ChainScoped(a: Expr, b: Expr, c: Expr, d: Expr, start: Scope, sc: Scope)
    requires WellScoped(a, start) && After(a, start) == sc
    requires WellScoped(b, sc) && After(b, sc) == sc && WellScoped(c, sc) && After(c, sc) == sc && WellScoped(d, sc)
    ensures WellScoped(Chain(a, b, c, d), start)
  {
    PairScoped(c, d, sc);
    PairScoped(b, Sequence([c, d]), sc);
    PairScoped(a, Sequence([b, Sequence([c, d])]), start);
  }

  lemma BodyScoped(site: Site)
    ensures WellScoped(SavedInTheOnlyArm(site), NO_SCOPE)
  {
    BindingScoped();
    AssignmentScoped();
    MatchScoped();
    KeyCallScoped(Get, site, BOUND);
    ChainScoped(Binding(), Assignment(), SavingMatch(), KeyCall(Get, site), NO_SCOPE, BOUND);
  }

  lemma LastReads(site: Site)
    ensures Steps(BeforeTheLastRead(false), Read(0, site)) == {SAVED}
    ensures PathState(UNSAVED.bound, {site}) in Steps(BeforeTheLastRead(true), Read(0, site))
  {
    assert BeforeTheLastRead(false) == {SAVED};
    OnlyPath(SAVED, Read(0, site));
    assert !HoldsUnsaved(SAVED, 0);
    assert UNSAVED.bound[1] == Var(0, true);
    assert HoldsUnsaved(UNSAVED, 0) && Step(UNSAVED, Read(0, site)) == PathState(UNSAVED.bound, {site});
    StepsImage(BeforeTheLastRead(true), Read(0, site));
  }

  /** A whole, well-scoped body in which no real path reads a stale value, and the last read is reported: the merge
      of a match starts from the state before it. */
  lemma MatchMergeStartsFromPreState(site: Site)
    ensures WellScoped(SavedInTheOnlyArm(site), NO_SCOPE)
    ensures site in Visit(SavedInTheOnlyArm(site), INITIAL).findings
    ensures forall p :: p in Paths(SavedInTheOnlyArm(site), {START}, false) ==> p.stale == {}
  {
    BodyScoped(site);
    LastReads(site);
    BodyPaths(site, false);
    BodyPaths(site, true);
    ReportedIffStaleOnSomePath(SavedInTheOnlyArm(site), site);
  }

  // ----- no false report where every match has an idle arm -----

  /** Nothing in `e` binds from storage, modifies, reads or writes. */
  predicate Idle(e: Expr)
    decreases e, 1, 0
  {
    if e.If? then
      Idle(e.cond) && Idle(e.thenBranch) && (e.elseBranch.Some? ==> Idle(e.elseBranch.value))
    else if e.Match? && e.normal then
      e.arms != [] && Idle(e.scrutinee) && forall i :: 0 <= i < |e.arms| ==> IdleArm(e, e.arms[i], KeyOf(e.scrutinee))
    else
      ChildrenSmaller(e);
      EventsOf(e) == [] && forall i :: 0 <= i < |Children(e)| ==> Idle(Children(e)[i])
  }

  predicate IdleArm(parent: Expr, arm: Arm, key: Option<HirId>)
    requires arm < parent
    decreases parent, 0, 0
  {
    (key.None? || arm.armPat == []) && (arm.guard.Some? ==> Idle(arm.guard.value)) && Idle(arm.body)
  }

  lemma {:induction false} IdlePaths(e: Expr, ps: set<PathState>, fallThrough: bool)
    requires Idle(e)
    ensures Paths(e, ps, fallThrough) == ps
    decreases e, 1, 0
  {
    if e.If? {
      IdlePaths(e.cond, ps, fallThrough);
      IdlePaths(e.thenBranch, ps, fallThrough);
      if e.elseBranch.Some? {
        IdlePaths(e.elseBranch.value, ps, fallThrough);
      }
    } else if e.Match? && e.normal {
      IdlePaths(e.scrutinee, ps, fallThrough);
      IdlePathsOfArms(e, e.arms, KeyOf(e.scrutinee), ps, fallThrough);
    } else {
      ChildrenSmaller(e);
      IdlePathsOfAll(e, Children(e), ps, fallThrough);
    }
  }

  lemma {:induction false} IdlePathsOfAll(parent: Expr, items: seq<Expr>, ps: set<PathState>, fallThrough: bool)
    requires forall i :: 0 <= i < |items| ==> items[i] < parent && Idle(items[i])
    ensures PathsAll(parent, items, ps, fallThrough) == ps
    decreases parent, 0, |items|
  {
    if items != [] {
      IdlePaths(items[0], ps, fallThrough);
      IdlePathsOfAll(parent, items[1..], ps, fallThrough);
    }
  }

  lemma {:induction false} IdlePathsOfArms(parent: Expr, arms: seq<Arm>, key: Option<HirId>, ps: set<PathState>,
                                           fallThrough: bool)
    requires forall i :: 0 <= i < |arms| ==> arms[i] < parent && IdleArm(parent, arms[i], key)
    ensures PathsArms(parent, arms, key, ps, fallThrough) == if arms == [] then {} else ps
    decreases parent, 0, |arms|
  {
    if arms != [] {
      IdlePathsOfArm(parent, arms[0], key, ps, fallThrough);
      IdlePathsOfArms(parent, arms[1..], key, ps, fallThrough);
    }
  }

  lemma {:induction false} IdlePathsOfArm(parent: Expr, arm: Arm, key: Option<HirId>, ps: set<PathState>,
                                          fallThrough: bool)
    requires arm < parent && IdleArm(parent, arm, key)
    ensures PathsArm(parent, arm, key, ps, fallThrough) == ps
    decreases parent, 0, 0
  {
    if arm.guard.Some? {
      IdlePaths(arm.guard.value, ps, fallThrough);
    }
    IdlePaths(arm.body, ps, fallThrough);
  }

  /** Every match in `e` has an arm that does nothing. */
  predicate HasIdleArms(e: Expr)
    decreases e, 1, 0
  {
    if e.If? then
      HasIdleArms(e.cond) && HasIdleArms(e.thenBranch) && (e.elseBranch.Some? ==> HasIdleArms(e.elseBranch.value))
    else if e.Match? && e.normal then
      && HasIdleArms(e.scrutinee)
      && (exists i :: 0 <= i < |e.arms| && IdleArm(e, e.arms[i], KeyOf(e.scrutinee)))
      && forall i :: 0 <= i < |e.arms| ==> HasIdleArmsInArm(e, e.arms[i])
    else
      ChildrenSmaller(e);
      forall i :: 0 <= i < |Children(e)| ==> HasIdleArms(Children(e)[i])
  }

  predicate HasIdleArmsInArm(parent: Expr, arm: Arm)
    requires arm < parent
    decreases parent, 0, 0
  {
    (arm.guard.Some? ==> HasIdleArms(arm.guard.value)) && HasIdleArms(arm.body)
  }

  /** Then the empty arm adds no path. */
  lemma {:induction false} IdleArmsAddNoPath(e: Expr, ps: set<PathState>)
    requires HasIdleArms(e)
    ensures Paths(e, ps, true) == Paths(e, ps, false)
    decreases e, 1, 0
  {
    if e.If? {
      IdleArmsAddNoPath(e.cond, ps);
      var ps1 := Paths(e.cond, ps, true);
      IdleArmsAddNoPath(e.thenBranch, ps1);
      if e.elseBranch.Some? {
        IdleArmsAddNoPath(e.elseBranch.value, ps1);
      }
    } else if e.Match? && e.normal {
      IdleArmsAddNoPath(e.scrutinee, ps);
      var ps1, key := Paths(e.scrutinee, ps, true), KeyOf(e.scrutinee);
      IdleArmsAddNoPathInArms(e, e.arms, key, ps1);
      var i :| 0 <= i < |e.arms| && IdleArm(e, e.arms[i], key);
      IdleArmIsThere(e, e.arms, key, ps1, i);
    } else {
      ChildrenSmaller(e);
      IdleArmsAddNoPathInAll(e, Children(e), StepsAll(ps, EventsOf(e)));
    }
  }

  lemma {:induction false} IdleArmIsThere(parent: Expr, arms: seq<Arm>, key: Option<HirId>, ps: set<PathState>, i: nat)
    requires forall j :: 0 <= j < |arms| ==> arms[j] < parent
    requires i < |arms| && IdleArm(parent, arms[i], key)
    ensures ps <= PathsArms(parent, arms, key, ps, true)
    decreases i
  {
    if i == 0 {
      IdlePathsOfArm(parent, arms[0], key, ps, true);
    } else {
      IdleArmIsThere(parent, arms[1..], key, ps, i - 1);
    }
  }

  lemma {:induction false} IdleArmsAddNoPathInAll(parent: Expr, items: seq<Expr>, ps: set<PathState>)
    requires forall i :: 0 <= i < |items| ==> items[i] < parent && HasIdleArms(items[i])
    ensures PathsAll(parent, items, ps, true) == PathsAll(parent, items, ps, false)
    decreases parent, 0, |items|
  {
    if items != [] {
      IdleArmsAddNoPath(items[0], ps);
      IdleArmsAddNoPathInAll(parent, items[1..], Paths(items[0], ps, true));
    }
  }

  lemma {:induction false} IdleArmsAddNoPathInArms(parent: Expr, arms: seq<Arm>, key: Option<HirId>, ps: set<PathState>)
    requires forall i :: 0 <= i < |arms| ==> arms[i] < parent && HasIdleArmsInArm(parent, arms[i])
    ensures PathsArms(parent, arms, key, ps, true) == PathsArms(parent, arms, key, ps, false)
    decreases parent, 0, |arms|
  {
    if arms != [] {
      IdleArmsAddNoPathInArm(parent, arms[0], key, ps);
      IdleArmsAddNoPathInArms(parent, arms[1..], key, ps);
    }
  }

  lemma {:induction false} IdleArmsAddNoPathInArm(parent: Expr, arm: Arm, key: Option<HirId>, ps: set<PathState>)
    requires arm < parent && HasIdleArmsInArm(parent, arm)
    ensures PathsArm(parent, arm, key, ps, true) == PathsArm(parent, arm, key, ps, false)
    decreases parent, 0, 0
  {
    var ps1 := if key.Some? then StepsAll(ps, BindAll(arm.armPat, key.value)) else ps;
    if arm.guard.Some? {
      IdleArmsAddNoPath(arm.guard.value, ps1);
      IdleArmsAddNoPath(arm.body, Paths(arm.guard.value, ps1, true));
    } else {
      IdleArmsAddNoPath(arm.body, ps1);
    }
  }

  /** In a well-scoped body in which every match has an arm that does nothing, a read is reported exactly when it is
      stale on a real path. */
  lemma ReportedIffStaleOnRealPath(body: Expr, site: Site)
    requires WellScoped(body, NO_SCOPE) && HasIdleArms(body)
    ensures site in Visit(body, INITIAL).findings <==> exists p :: p in Paths(body, {START}, false) && site in p.stale
  {
    IdleArmsAddNoPath(body, {START});
    ReportedIffStaleOnSomePath(body, site);
  }
}
