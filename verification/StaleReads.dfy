/** Stale reads of storage after an unsaved modification (detector uncached-storage-modification):
    the walk as a function, and the paths it stands for. */
module StaleReads {
  import opened Options

  type HirId = nat

  /** A `get` call, as a place to report. */
  type Site = nat

  datatype Name = Get | Set | Unwrap | UnwrapOr | Expect | OtherName

  /** Expressions and statements of a body; patterns are the locals they bind. */
  datatype Expr =
    | Path(local: HirId)
    | Literal(litId: HirId)
    | AddrOf(isMut: bool, inner: Expr)
    | MethodCall(name: Name, receiver: Expr, args: seq<Expr>, onStorage: bool, mutSelf: bool, site: Site)
    | Call(callArgs: seq<Expr>)
    | Assign(lhs: Expr, rhs: Expr)
    | LetCond(condPat: seq<HirId>, condInit: Expr)
    | LetStmt(pat: seq<HirId>, init: Option<Expr>, els: Option<Expr>)
    | If(cond: Expr, thenBranch: Expr, elseBranch: Option<Expr>)
    | Match(scrutinee: Expr, arms: seq<Arm>, normal: bool)
    | Sequence(items: seq<Expr>)

  datatype Arm = Arm(armPat: seq<HirId>, guard: Option<Expr>, body: Expr)

  // ----- what a node does before its children are walked -----

  datatype Event = Bind(v: HirId, key: HirId) | Modify(v: HirId) | Read(key: HirId, site: Site) | Write(key: HirId)

  /** The local (or literal) behind any number of references. */
  function RootId(e: Expr): Option<HirId> {
    match e
    case AddrOf(_, x) => RootId(x)
    case Path(id) => Some(id)
    case Literal(id) => Some(id)
    case _ => None
  }

  /** The arguments of the `get` under any number of unwraps. */
  function FindStorageGetArgs(e: Expr): Option<seq<Expr>> {
    match e
    case MethodCall(Get, _, args, _, _, _) => Some(args)
    case MethodCall(Unwrap, recv, _, _, _, _) => FindStorageGetArgs(recv)
    case MethodCall(UnwrapOr, recv, _, _, _, _) => FindStorageGetArgs(recv)
    case MethodCall(Expect, recv, _, _, _, _) => FindStorageGetArgs(recv)
    case _ => None
  }

  function FirstKey(args: seq<Expr>): Option<HirId> {
    if args == [] then None else RootId(args[0])
  }

  /** The key an initializer was read from. */
  function KeyOf(init: Expr): Option<HirId> {
    var args := FindStorageGetArgs(init);
    if args.Some? then FirstKey(args.value) else None
  }

  function BindAll(pat: seq<HirId>, key: HirId): seq<Event> {
    seq(|pat|, i requires 0 <= i < |pat| => Bind(pat[i], key))
  }

  function BindFrom(pat: seq<HirId>, init: Expr): seq<Event> {
    if KeyOf(init).Some? then BindAll(pat, KeyOf(init).value) else []
  }

  function ModifyRoot(e: Expr): seq<Event> {
    if RootId(e).Some? then [Modify(RootId(e).value)] else []
  }

  /** Locals passed by `&mut`. */
  function MutBorrows(args: seq<Expr>): seq<Event> {
    if args == [] then []
    else (if args[0].AddrOf? && args[0].isMut then ModifyRoot(args[0].inner) else []) + MutBorrows(args[1..])
  }

  function StorageEvent(name: Name, args: seq<Expr>, onStorage: bool, site: Site): seq<Event> {
    if !onStorage || FirstKey(args).None? then []
    else if name == Get then [Read(FirstKey(args).value, site)]
    else if name == Set then [Write(FirstKey(args).value)]
    else []
  }

  function EventsOf(e: Expr): seq<Event> {
    match e
    case MethodCall(name, receiver, args, onStorage, mutSelf, site) =>
      StorageEvent(name, args, onStorage, site) + (if mutSelf then ModifyRoot(receiver) else []) + MutBorrows(args)
    case Call(args) => MutBorrows(args)
    case Assign(lhs, _) => ModifyRoot(lhs)
    case LetCond(pat, init) => BindFrom(pat, init)
    case LetStmt(pat, Some(init), _) => BindFrom(pat, init)
    case _ => []
  }

  function ArmParts(arms: seq<Arm>): seq<Expr> {
    if arms == [] then []
    else (if arms[0].guard.Some? then [arms[0].guard.value] else []) + [arms[0].body] + ArmParts(arms[1..])
  }

  /** What is walked after a node's own events, in the visitor's order. */
  function Children(e: Expr): seq<Expr> {
    match e
    case AddrOf(_, x) => [x]
    case MethodCall(_, receiver, args, _, _, _) => [receiver] + args
    case Call(args) => args
    case Assign(lhs, rhs) => [rhs, lhs]
    case LetCond(_, init) => [init]
    case LetStmt(_, init, els) => (if init.Some? then [init.value] else []) + (if els.Some? then [els.value] else [])
    case Match(x, arms, false) => [x] + ArmParts(arms)
    case Sequence(items) => items
    case _ => []
  }

  /** Nodes whose children are simply walked in order. */
  predicate Straight(e: Expr) {
    !e.If? && !(e.Match? && e.normal)
  }

  lemma {:induction false} ArmPartsSmaller(e: Expr, arms: seq<Arm>)
    requires forall i :: 0 <= i < |arms| ==> arms[i] < e
    ensures forall i :: 0 <= i < |ArmParts(arms)| ==> ArmParts(arms)[i] < e
  {
    if arms != [] {
      ArmPartsSmaller(e, arms[1..]);
    }
  }

  lemma ChildrenSmaller(e: Expr)
    ensures forall i :: 0 <= i < |Children(e)| ==> Children(e)[i] < e
  {
    if e.Match? {
      ArmPartsSmaller(e, e.arms);
    }
  }

  // ----- the walk -----

  datatype CopyState = Clean | Modified
  type Dirty = map<HirId, CopyState>

  datatype Analysis = Analysis(dirty: Dirty, keyMap: map<HirId, HirId>, findings: set<Site>)

  predicate StaleFor(a: Analysis, key: HirId) {
    exists v :: v in a.dirty && a.dirty[v] == Modified && v in a.keyMap && a.keyMap[v] == key
  }

  function Transfer(a: Analysis, ev: Event): Analysis {
    match ev
    case Bind(v, key) => a.(dirty := a.dirty[v := Clean], keyMap := a.keyMap[v := key])
    case Modify(v) => if v in a.dirty then a.(dirty := a.dirty[v := Modified]) else a
    case Read(key, site) => if StaleFor(a, key) then a.(findings := a.findings + {site}) else a
    case Write(key) => a.(dirty := a.dirty + map v | v in a.keyMap && a.keyMap[v] == key :: Clean)
  }

  function TransferAll(a: Analysis, evs: seq<Event>): Analysis
    decreases |evs|
  {
    if evs == [] then a else TransferAll(Transfer(a, evs[0]), evs[1..])
  }

  /** Modified in either state; a local that is only clean in the second is forgotten. */
  function MergeStates(s1: Dirty, s2: Dirty): Dirty {
    s1 + map v | v in s2 && s2[v] == Modified :: Modified
  }

  function Visit(e: Expr, a: Analysis): Analysis
    decreases e, 1, 0
  {
    if e.If? then
      var a1 := Visit(e.cond, a);
      var thn := Visit(e.thenBranch, a1);
      var restart := thn.(dirty := a1.dirty);
      var els := if e.elseBranch.Some? then Visit(e.elseBranch.value, restart) else restart;
      els.(dirty := MergeStates(thn.dirty, els.dirty))
    else if e.Match? && e.normal then
      var a1 := Visit(e.scrutinee, a);
      VisitArms(e, e.arms, KeyOf(e.scrutinee), a1.dirty, a1)
    else
      ChildrenSmaller(e);
      VisitAll(e, Children(e), TransferAll(a, EventsOf(e)))
  }

  function VisitAll(parent: Expr, items: seq<Expr>, a: Analysis): Analysis
    requires forall i :: 0 <= i < |items| ==> items[i] < parent
    decreases parent, 0, |items|
  {
    if items == [] then a else VisitAll(parent, items[1..], Visit(items[0], a))
  }

  /** One arm: its pattern if the match is on a storage read, its guard, its body. */
  function VisitArm(parent: Expr, arm: Arm, key: Option<HirId>, a: Analysis): Analysis
    requires arm < parent
    decreases parent, 0, 0
  {
    var a1 := if key.Some? then TransferAll(a, BindAll(arm.armPat, key.value)) else a;
    var a2 := if arm.guard.Some? then Visit(arm.guard.value, a1) else a1;
    Visit(arm.body, a2)
  }

  /** Every arm starts from the state before the match, and so does the merge. `a.dirty` is what is merged so far. */
  function VisitArms(parent: Expr, arms: seq<Arm>, key: Option<HirId>, pre: Dirty, a: Analysis): Analysis
    requires forall i :: 0 <= i < |arms| ==> arms[i] < parent
    decreases parent, 0, |arms|
  {
    if arms == [] then a
    else
      var after := VisitArm(parent, arms[0], key, a.(dirty := pre));
      VisitArms(parent, arms[1..], key, pre, after.(dirty := MergeStates(a.dirty, after.dirty)))
  }

  // ----- the reference: one path at a time -----

  datatype Var = Var(key: HirId, modified: bool)

  /** What one choice of branches has done: the locals it bound from storage, and the reads of a key
      whose value it had modified and not written back. */
  datatype PathState = PathState(bound: map<HirId, Var>, stale: set<Site>)

  predicate HoldsUnsaved(p: PathState, key: HirId) {
    exists v :: v in p.bound && p.bound[v] == Var(key, true)
  }

  function Step(p: PathState, ev: Event): PathState {
    match ev
    case Bind(v, key) => p.(bound := p.bound[v := Var(key, false)])
    case Modify(v) => if v in p.bound then p.(bound := p.bound[v := p.bound[v].(modified := true)]) else p
    case Read(key, site) => if HoldsUnsaved(p, key) then p.(stale := p.stale + {site}) else p
    case Write(key) =>
      p.(bound := map v | v in p.bound :: if p.bound[v].key == key then Var(key, false) else p.bound[v])
  }

  function Steps(ps: set<PathState>, ev: Event): set<PathState> {
    set p | p in ps :: Step(p, ev)
  }

  function StepsAll(ps: set<PathState>, evs: seq<Event>): set<PathState>
    decreases |evs|
  {
    if evs == [] then ps else StepsAll(Steps(ps, evs[0]), evs[1..])
  }

  /** All paths through `e`. With `fallThrough`, a match may also take none of its arms. */
  function Paths(e: Expr, ps: set<PathState>, fallThrough: bool): set<PathState>
    decreases e, 1, 0
  {
    if e.If? then
      var ps1 := Paths(e.cond, ps, fallThrough);
      Paths(e.thenBranch, ps1, fallThrough) +
      (if e.elseBranch.Some? then Paths(e.elseBranch.value, ps1, fallThrough) else ps1)
    else if e.Match? && e.normal then
      var ps1 := Paths(e.scrutinee, ps, fallThrough);
      (if fallThrough then ps1 else {}) + PathsArms(e, e.arms, KeyOf(e.scrutinee), ps1, fallThrough)
    else
      ChildrenSmaller(e);
      PathsAll(e, Children(e), StepsAll(ps, EventsOf(e)), fallThrough)
  }

  function PathsAll(parent: Expr, items: seq<Expr>, ps: set<PathState>, fallThrough: bool): set<PathState>
    requires forall i :: 0 <= i < |items| ==> items[i] < parent
    decreases parent, 0, |items|
  {
    if items == [] then ps else PathsAll(parent, items[1..], Paths(items[0], ps, fallThrough), fallThrough)
  }

  function PathsArm(parent: Expr, arm: Arm, key: Option<HirId>, ps: set<PathState>, fallThrough: bool): set<PathState>
    requires arm < parent
    decreases parent, 0, 0
  {
    var ps1 := if key.Some? then StepsAll(ps, BindAll(arm.armPat, key.value)) else ps;
    var ps2 := if arm.guard.Some? then Paths(arm.guard.value, ps1, fallThrough) else ps1;
    Paths(arm.body, ps2, fallThrough)
  }

  /** Any one of the arms. */
  function PathsArms(parent: Expr, arms: seq<Arm>, key: Option<HirId>, ps: set<PathState>,
                     fallThrough: bool): set<PathState>
    requires forall i :: 0 <= i < |arms| ==> arms[i] < parent
    decreases parent, 0, |arms|
  {
    if arms == [] then {}
    else PathsArm(parent, arms[0], key, ps, fallThrough) + PathsArms(parent, arms[1..], key, ps, fallThrough)
  }

  // ----- scoping -----

  /** `live` are bound from storage on every path so far, `ever` on some path visited so far. */
  datatype Scope = Scope(live: set<HirId>, ever: set<HirId>)

  function ScopeStep(sc: Scope, ev: Event): Scope {
    if ev.Bind? then Scope(sc.live + {ev.v}, sc.ever + {ev.v}) else sc
  }

  function ScopeSteps(sc: Scope, evs: seq<Event>): Scope
    decreases |evs|
  {
    if evs == [] then sc else ScopeSteps(ScopeStep(sc, evs[0]), evs[1..])
  }

  /** A binding is new; a local bound from storage is modified only where it is bound on every path. */
  predicate EventOk(sc: Scope, ev: Event) {
    (ev.Bind? ==> ev.v !in sc.ever) && (ev.Modify? ==> ev.v in sc.live || ev.v !in sc.ever)
  }

  predicate EventsOk(sc: Scope, evs: seq<Event>)
    decreases |evs|
  {
    evs == [] || (EventOk(sc, evs[0]) && EventsOk(ScopeStep(sc, evs[0]), evs[1..]))
  }

  function After(e: Expr, sc: Scope): Scope
    decreases e, 1, 0
  {
    if e.If? then
      var sc1 := After(e.cond, sc);
      var sc2 := After(e.thenBranch, sc1);
      var sc3 := if e.elseBranch.Some? then After(e.elseBranch.value, sc2.(live := sc1.live)) else sc2;
      sc3.(live := sc1.live)
    else if e.Match? && e.normal then
      AfterArms(e, e.arms, KeyOf(e.scrutinee), After(e.scrutinee, sc))
    else
      ChildrenSmaller(e);
      AfterAll(e, Children(e), ScopeSteps(sc, EventsOf(e)))
  }

  function AfterAll(parent: Expr, items: seq<Expr>, sc: Scope): Scope
    requires forall i :: 0 <= i < |items| ==> items[i] < parent
    decreases parent, 0, |items|
  {
    if items == [] then sc else AfterAll(parent, items[1..], After(items[0], sc))
  }

  function AfterArm(parent: Expr, arm: Arm, key: Option<HirId>, sc: Scope): Scope
    requires arm < parent
    decreases parent, 0, 0
  {
    var sc1 := if key.Some? then ScopeSteps(sc, BindAll(arm.armPat, key.value)) else sc;
    var sc2 := if arm.guard.Some? then After(arm.guard.value, sc1) else sc1;
    After(arm.body, sc2)
  }

  function AfterArms(parent: Expr, arms: seq<Arm>, key: Option<HirId>, sc: Scope): Scope
    requires forall i :: 0 <= i < |arms| ==> arms[i] < parent
    decreases parent, 0, |arms|
  {
    if arms == [] then sc
    else AfterArms(parent, arms[1..], key, AfterArm(parent, arms[0], key, sc).(live := sc.live))
  }

  predicate WellScoped(e: Expr, sc: Scope)
    decreases e, 1, 0
  {
    if e.If? then
      var sc1 := After(e.cond, sc);
      && WellScoped(e.cond, sc) && WellScoped(e.thenBranch, sc1)
      && (e.elseBranch.Some? ==> WellScoped(e.elseBranch.value, After(e.thenBranch, sc1).(live := sc1.live)))
    else if e.Match? && e.normal then
      WellScoped(e.scrutinee, sc) && WellScopedArms(e, e.arms, KeyOf(e.scrutinee), After(e.scrutinee, sc))
    else
      ChildrenSmaller(e);
      EventsOk(sc, EventsOf(e)) && WellScopedAll(e, Children(e), ScopeSteps(sc, EventsOf(e)))
  }

  predicate WellScopedAll(parent: Expr, items: seq<Expr>, sc: Scope)
    requires forall i :: 0 <= i < |items| ==> items[i] < parent
    decreases parent, 0, |items|
  {
    items == [] || (WellScoped(items[0], sc) && WellScopedAll(parent, items[1..], After(items[0], sc)))
  }

  predicate WellScopedArm(parent: Expr, arm: Arm, key: Option<HirId>, sc: Scope)
    requires arm < parent
    decreases parent, 0, 0
  {
    var binds := if key.Some? then BindAll(arm.armPat, key.value) else [];
    var sc1 := ScopeSteps(sc, binds);
    var sc2 := if arm.guard.Some? then After(arm.guard.value, sc1) else sc1;
    EventsOk(sc, binds) && (arm.guard.Some? ==> WellScoped(arm.guard.value, sc1)) && WellScoped(arm.body, sc2)
  }

  predicate WellScopedArms(parent: Expr, arms: seq<Arm>, key: Option<HirId>, sc: Scope)
    requires forall i :: 0 <= i < |arms| ==> arms[i] < parent
    decreases parent, 0, |arms|
  {
    arms == [] ||
    (WellScopedArm(parent, arms[0], key, sc) &&
     WellScopedArms(parent, arms[1..], key, AfterArm(parent, arms[0], key, sc).(live := sc.live)))
  }
}
