/** Wherever it is in a body, no code that binds, modifies, reads or writes is passed over by the walk. */
module StaleReadsWalk {
  import opened Options
  import opened StaleReads
  import opened StaleReadsForms

  // ----- everything inside an expression is walked -----

  predicate IsPart(e: Expr, part: Expr) {
    match e
    case AddrOf(_, x) => part == x
    case MethodCall(_, receiver, args, _, _, _) => part == receiver || part in args
    case Call(args) => part in args
    case Assign(lhs, rhs) => part == lhs || part == rhs
    case LetCond(_, init) => part == init
    case LetStmt(_, init, els) => init == Some(part) || els == Some(part)
    case If(cond, thn, els) => part == cond || part == thn || els == Some(part)
    case Match(x, arms, _) =>
      part == x || exists i :: 0 <= i < |arms| && (arms[i].body == part || arms[i].guard == Some(part))
    case Sequence(items) => part in items
    case _ => false
  }

  lemma {:induction false} ArmPartsMeaning(arms: seq<Arm>, part: Expr)
    ensures part in ArmParts(arms) <==>
        exists i :: 0 <= i < |arms| && (arms[i].body == part || arms[i].guard == Some(part))
  {
    if arms != [] {
      ArmPartsMeaning(arms[1..], part);
      if i :| 0 <= i < |arms| && (arms[i].body == part || arms[i].guard == Some(part)) {
        assert i > 0 ==> arms[1..][i - 1] == arms[i];
      }
      if i :| 0 <= i < |arms| - 1 && (arms[1..][i].body == part || arms[1..][i].guard == Some(part)) {
        assert arms[i + 1] == arms[1..][i];
      }
    }
  }

  /** A node that is not a branch walks all its parts. */
  lemma ChildrenAreTheParts(e: Expr, part: Expr)
    requires Straight(e)
    ensures part in Children(e) <==> IsPart(e, part)
  {
    if e.Match? {
      ArmPartsMeaning(e.arms, part);
    }
  }

  ghost predicate IsPartPath(path: seq<Expr>, e: Expr) {
    path != [] && path[0] == e && forall i :: 0 <= i < |path| - 1 ==> IsPart(path[i], path[i + 1])
  }

  /** What is known of a local that is bound from a key. */
  datatype Goal = Tracked | StaysModified | StaysClean

  ghost predicate Known(a: Analysis, v: HirId, key: HirId, goal: Goal) {
    && v in a.dirty && v in a.keyMap && a.keyMap[v] == key
    && (goal == StaysModified ==> a.dirty[v] == Modified) && (goal == StaysClean ==> a.dirty[v] == Clean)
  }

  ghost predicate BindsInArm(e: Expr, v: HirId) {
    && e.Match? && e.normal && (exists key :: IsReadOf(e.scrutinee, key))
    && exists i :: 0 <= i < |e.arms| && v in e.arms[i].armPat
  }

  /** The node does not bind the local again, and does not write the key, or modify the local. */
  ghost predicate NodeAllows(e: Expr, v: HirId, key: HirId, goal: Goal) {
    && !BindsInArm(e, v) && (forall k :: !Binds(e, v, k))
    && (goal == StaysModified ==> !CallsStorage(e, Set, key)) && (goal == StaysClean ==> !Modifies(e, v))
  }

  /** Nor does anything inside it. */
  ghost predicate Allows(e: Expr, v: HirId, key: HirId, goal: Goal) {
    forall path :: IsPartPath(path, e) ==> NodeAllows(path[|path| - 1], v, key, goal)
  }

  lemma AllowsNode(e: Expr, v: HirId, key: HirId, goal: Goal)
    requires Allows(e, v, key, goal)
    ensures NodeAllows(e, v, key, goal)
    ensures forall part :: IsPart(e, part) ==> Allows(part, v, key, goal)
  {
    assert IsPartPath([e], e);
    forall part, path | IsPart(e, part) && IsPartPath(path, part)
      ensures NodeAllows(path[|path| - 1], v, key, goal)
    {
      assert IsPartPath([e] + path, e);
      assert ([e] + path)[|[e] + path| - 1] == path[|path| - 1];
    }
  }

  predicate EventAllowed(ev: Event, v: HirId, key: HirId, goal: Goal) {
    && !(ev.Bind? && ev.v == v)
    && (goal == StaysModified ==> !(ev.Write? && ev.key == key)) && (goal == StaysClean ==> !(ev.Modify? && ev.v == v))
  }

  ghost predicate EventsAllowed(evs: seq<Event>, v: HirId, key: HirId, goal: Goal) {
    forall ev :: ev in evs ==> EventAllowed(ev, v, key, goal)
  }

  lemma NodeEventsAllowed(e: Expr, v: HirId, key: HirId, goal: Goal)
    requires NodeAllows(e, v, key, goal)
    ensures EventsAllowed(EventsOf(e), v, key, goal)
  {
    forall ev | ev in EventsOf(e)
      ensures EventAllowed(ev, v, key, goal)
    {
      EventMeaning(e, ev);
    }
  }

  lemma {:induction false} TransferKeeps(a: Analysis, evs: seq<Event>, v: HirId, key: HirId, goal: Goal)
    requires Known(a, v, key, goal) && EventsAllowed(evs, v, key, goal)
    ensures Known(TransferAll(a, evs), v, key, goal)
    decreases |evs|
  {
    if evs != [] {
      assert evs[0] in evs && forall ev :: ev in evs[1..] ==> ev in evs;
      TransferKeeps(Transfer(a, evs[0]), evs[1..], v, key, goal);
    }
  }

  /** An arm of a match in which the local is not bound again. */
  ghost predicate ArmAllows(arm: Arm, bound: Option<HirId>, v: HirId, key: HirId, goal: Goal) {
    && (bound.Some? ==> v !in arm.armPat)
    && (arm.guard.Some? ==> Allows(arm.guard.value, v, key, goal)) && Allows(arm.body, v, key, goal)
  }

  lemma ArmsAllow(e: Expr, v: HirId, key: HirId, goal: Goal)
    requires e.Match? && e.normal
    requires NodeAllows(e, v, key, goal) && forall part :: IsPart(e, part) ==> Allows(part, v, key, goal)
    ensures forall i :: 0 <= i < |e.arms| ==> ArmAllows(e.arms[i], KeyOf(e.scrutinee), v, key, goal)
  {
    if KeyOf(e.scrutinee).Some? {
      KeyMeaning(e.scrutinee, KeyOf(e.scrutinee).value);
    }
    forall i | 0 <= i < |e.arms|
      ensures ArmAllows(e.arms[i], KeyOf(e.scrutinee), v, key, goal)
    {
      assert IsPart(e, e.arms[i].body);
      if e.arms[i].guard.Some? {
        assert IsPart(e, e.arms[i].guard.value);
      }
    }
  }

  // ----- reports are kept -----

  lemma {:induction false} TransferGrows(a: Analysis, evs: seq<Event>)
    ensures a.findings <= TransferAll(a, evs).findings
    decreases |evs|
  {
    if evs != [] {
      TransferGrows(Transfer(a, evs[0]), evs[1..]);
    }
  }

  lemma {:induction false} VisitGrows(e: Expr, a: Analysis)
    ensures a.findings <= Visit(e, a).findings
    decreases e, 1, 0
  {
    if e.If? {
      VisitGrows(e.cond, a);
      var a1 := Visit(e.cond, a);
      VisitGrows(e.thenBranch, a1);
      if e.elseBranch.Some? {
        VisitGrows(e.elseBranch.value, Visit(e.thenBranch, a1).(dirty := a1.dirty));
      }
    } else if e.Match? && e.normal {
      VisitGrows(e.scrutinee, a);
      var a1 := Visit(e.scrutinee, a);
      ArmsGrow(e, e.arms, KeyOf(e.scrutinee), a1.dirty, a1);
    } else {
      ChildrenSmaller(e);
      TransferGrows(a, EventsOf(e));
      AllGrow(e, Children(e), TransferAll(a, EventsOf(e)));
    }
  }

  lemma {:induction false} AllGrow(parent: Expr, items: seq<Expr>, a: Analysis)
    requires forall i :: 0 <= i < |items| ==> items[i] < parent
    ensures a.findings <= VisitAll(parent, items, a).findings
    decreases parent, 0, |items|
  {
    if items != [] {
      VisitGrows(items[0], a);
      AllGrow(parent, items[1..], Visit(items[0], a));
    }
  }

  lemma {:induction false} ArmGrows(parent: Expr, arm: Arm, bound: Option<HirId>, a: Analysis)
    requires arm < parent
    ensures a.findings <= VisitArm(parent, arm, bound, a).findings
    decreases parent, 0, 0
  {
    var a1 := a;
    if bound.Some? {
      TransferGrows(a, BindAll(arm.armPat, bound.value));
      a1 := TransferAll(a, BindAll(arm.armPat, bound.value));
    }
    if arm.guard.Some? {
      VisitGrows(arm.guard.value, a1);
      a1 := Visit(arm.guard.value, a1);
    }
    VisitGrows(arm.body, a1);
  }

  lemma {:induction false} ArmsGrow(parent: Expr, arms: seq<Arm>, bound: Option<HirId>, pre: Dirty, a: Analysis)
    requires forall i :: 0 <= i < |arms| ==> arms[i] < parent
    ensures a.findings <= VisitArms(parent, arms, bound, pre, a).findings
    decreases parent, 0, 1 + |arms|
  {
    if arms != [] {
      ArmGrows(parent, arms[0], bound, a.(dirty := pre));
      var after := VisitArm(parent, arms[0], bound, a.(dirty := pre));
      ArmsGrow(parent, arms[1..], bound, pre, after.(dirty := MergeStates(a.dirty, after.dirty)));
    }
  }

  // ----- what is known is kept -----

  lemma {:induction false} VisitKeeps(e: Expr, a: Analysis, v: HirId, key: HirId, goal: Goal)
    requires Known(a, v, key, goal) && Allows(e, v, key, goal)
    ensures Known(Visit(e, a), v, key, goal)
    decreases e, 1, 0
  {
    AllowsNode(e, v, key, goal);
    if e.If? {
      IfKeeps(e, a, v, key, goal);
    } else if e.Match? && e.normal {
      VisitKeeps(e.scrutinee, a, v, key, goal);
      var a1 := Visit(e.scrutinee, a);
      assert a1.(dirty := a1.dirty) == a1;
      ArmsAllow(e, v, key, goal);
      ArmsKeep(e, e.arms, KeyOf(e.scrutinee), a1.dirty, a1, v, key, goal);
    } else {
      ChildrenSmaller(e);
      NodeEventsAllowed(e, v, key, goal);
      TransferKeeps(a, EventsOf(e), v, key, goal);
      ChildrenAllow(e, v, key, goal);
      AllKeep(e, Children(e), TransferAll(a, EventsOf(e)), v, key, goal);
    }
  }

  lemma ChildrenAllow(e: Expr, v: HirId, key: HirId, goal: Goal)
    requires Straight(e) && Allows(e, v, key, goal)
    ensures forall i :: 0 <= i < |Children(e)| ==> Allows(Children(e)[i], v, key, goal)
  {
    AllowsNode(e, v, key, goal);
    forall i | 0 <= i < |Children(e)|
      ensures Allows(Children(e)[i], v, key, goal)
    {
      ChildrenAreTheParts(e, Children(e)[i]);
    }
  }

  lemma {:induction false} IfKeeps(e: Expr, a: Analysis, v: HirId, key: HirId, goal: Goal)
    requires e.If? && Known(a, v, key, goal) && forall part :: IsPart(e, part) ==> Allows(part, v, key, goal)
    ensures Known(Visit(e, a), v, key, goal)
    decreases e, 0, 0
  {
    VisitKeeps(e.cond, a, v, key, goal);
    var a1 := Visit(e.cond, a);
    VisitKeeps(e.thenBranch, a1, v, key, goal);
    if e.elseBranch.Some? {
      VisitKeeps(e.elseBranch.value, Visit(e.thenBranch, a1).(dirty := a1.dirty), v, key, goal);
    }
  }

  lemma {:induction false} AllKeep(parent: Expr, items: seq<Expr>, a: Analysis, v: HirId, key: HirId, goal: Goal)
    requires forall i :: 0 <= i < |items| ==> items[i] < parent && Allows(items[i], v, key, goal)
    requires Known(a, v, key, goal)
    ensures Known(VisitAll(parent, items, a), v, key, goal)
    decreases parent, 0, |items|
  {
    if items != [] {
      VisitKeeps(items[0], a, v, key, goal);
      AllKeep(parent, items[1..], Visit(items[0], a), v, key, goal);
    }
  }

  lemma {:induction false} ArmKeeps(parent: Expr, arm: Arm, bound: Option<HirId>, a: Analysis,
                                    v: HirId, key: HirId, goal: Goal)
    requires arm < parent && ArmAllows(arm, bound, v, key, goal) && Known(a, v, key, goal)
    ensures Known(VisitArm(parent, arm, bound, a), v, key, goal)
    decreases parent, 0, 0
  {
    var a1 := a;
    if bound.Some? {
      TransferKeeps(a, BindAll(arm.armPat, bound.value), v, key, goal);
      a1 := TransferAll(a, BindAll(arm.armPat, bound.value));
    }
    if arm.guard.Some? {
      VisitKeeps(arm.guard.value, a1, v, key, goal);
      a1 := Visit(arm.guard.value, a1);
    }
    VisitKeeps(arm.body, a1, v, key, goal);
  }

  /** `a` is what is merged so far, and every arm starts from `pre`. */
  lemma {:induction false} ArmsKeep(parent: Expr, arms: seq<Arm>, bound: Option<HirId>, pre: Dirty, a: Analysis,
                                    v: HirId, key: HirId, goal: Goal)
    requires forall i :: 0 <= i < |arms| ==> arms[i] < parent && ArmAllows(arms[i], bound, v, key, goal)
    requires Known(a, v, key, goal) && Known(a.(dirty := pre), v, key, goal)
    ensures Known(VisitArms(parent, arms, bound, pre, a), v, key, goal)
    decreases parent, 0, 1 + |arms|
  {
    if arms != [] {
      ArmKeeps(parent, arms[0], bound, a.(dirty := pre), v, key, goal);
      var after := VisitArm(parent, arms[0], bound, a.(dirty := pre));
      ArmsKeep(parent, arms[1..], bound, pre, after.(dirty := MergeStates(a.dirty, after.dirty)), v, key, goal);
    }
  }

  // ----- what is inside is reached -----

  /** What a node inside an expression does: it reads the key, modifies the local, or writes the key. */
  datatype Aim = FindsRead(site: Site) | MakesModified | MakesClean

  ghost predicate Does(e: Expr, v: HirId, key: HirId, aim: Aim) {
    match aim
    case FindsRead(site) => CallsStorage(e, Get, key) && e.site == site
    case MakesModified => Modifies(e, v)
    case MakesClean => CallsStorage(e, Set, key) && !Modifies(e, v)
  }

  /** What must be known before, and what stays known after. */
  function Before(aim: Aim): Goal {
    if aim.FindsRead? then StaysModified else Tracked
  }

  function Stays(aim: Aim): Goal {
    if aim.MakesClean? then StaysClean else StaysModified
  }

  ghost predicate Done(a: Analysis, v: HirId, key: HirId, aim: Aim) {
    if aim.FindsRead? then aim.site in a.findings else Known(a, v, key, Stays(aim))
  }

  /** A path to a node that does it; for a write, through no branches, since what one branch saves another may not. */
  ghost predicate LeadsTo(path: seq<Expr>, e: Expr, v: HirId, key: HirId, aim: Aim) {
    && IsPartPath(path, e) && Does(path[|path| - 1], v, key, aim)
    && (aim.MakesClean? ==> forall i :: 0 <= i < |path| ==> Straight(path[i]))
  }

  lemma AllowsBefore(e: Expr, v: HirId, key: HirId, aim: Aim)
    requires Allows(e, v, key, Stays(aim))
    ensures Allows(e, v, key, Before(aim))
  {
    forall path | IsPartPath(path, e)
      ensures NodeAllows(path[|path| - 1], v, key, Before(aim))
    {
      assert NodeAllows(path[|path| - 1], v, key, Stays(aim));
    }
  }

  /** Once done, it stays done. */
  lemma DoneStays(e: Expr, a: Analysis, v: HirId, key: HirId, aim: Aim)
    requires Done(a, v, key, aim) && Allows(e, v, key, Stays(aim))
    ensures Done(Visit(e, a), v, key, aim)
  {
    VisitGrows(e, a);
    if !aim.FindsRead? {
      VisitKeeps(e, a, v, key, Stays(aim));
    }
  }

  lemma {:induction false} Reaches(e: Expr, path: seq<Expr>, a: Analysis, v: HirId, key: HirId, aim: Aim)
    requires LeadsTo(path, e, v, key, aim) && Allows(e, v, key, Stays(aim)) && Known(a, v, key, Before(aim))
    ensures Done(Visit(e, a), v, key, aim)
    decreases e, 2, 0
  {
    AllowsNode(e, v, key, Stays(aim));
    if |path| == 1 {
      NodeDoes(e, a, v, key, aim);
    } else if e.If? {
      ReachesInIf(e, path, a, v, key, aim);
    } else if e.Match? && e.normal {
      ReachesInMatch(e, path, a, v, key, aim);
    } else {
      ReachesInChild(e, path, a, v, key, aim);
    }
  }

  lemma PathOn(path: seq<Expr>, e: Expr, v: HirId, key: HirId, aim: Aim)
    requires LeadsTo(path, e, v, key, aim) && |path| > 1
    ensures IsPart(e, path[1]) && LeadsTo(path[1..], path[1], v, key, aim)
  {
  }

  /** The node itself. */
  lemma NodeDoes(e: Expr, a: Analysis, v: HirId, key: HirId, aim: Aim)
    requires Does(e, v, key, aim) && Allows(e, v, key, Stays(aim)) && Known(a, v, key, Before(aim))
    ensures Done(Visit(e, a), v, key, aim)
  {
    ChildrenSmaller(e);
    AllowsNode(e, v, key, Stays(aim));
    NodeEventsAllowed(e, v, key, Stays(aim));
    var ev := match aim
      case FindsRead(site) => Read(key, site)
      case MakesModified => Modify(v)
      case MakesClean => Write(key);
    EventMeaning(e, ev);
    EventDoes(a, EventsOf(e), v, key, aim, ev);
    ChildrenAllow(e, v, key, Stays(aim));
    AllDoneStays(e, Children(e), TransferAll(a, EventsOf(e)), v, key, aim);
  }

  predicate EventFor(ev: Event, v: HirId, key: HirId, aim: Aim) {
    match aim
    case FindsRead(site) => ev == Read(key, site)
    case MakesModified => ev == Modify(v)
    case MakesClean => ev == Write(key)
  }

  lemma {:induction false} EventDoes(a: Analysis, evs: seq<Event>, v: HirId, key: HirId, aim: Aim, ev: Event)
    requires EventFor(ev, v, key, aim) && ev in evs && EventsAllowed(evs, v, key, Stays(aim))
    requires Known(a, v, key, Before(aim))
    ensures Done(TransferAll(a, evs), v, key, aim)
    decreases |evs|
  {
    assert evs[0] in evs && forall x :: x in evs[1..] ==> x in evs;
    var b := Transfer(a, evs[0]);
    if evs[0] == ev {
      assert aim.FindsRead? ==> StaleFor(a, key);
      assert Done(b, v, key, aim);
      TransferGrows(b, evs[1..]);
      if !aim.FindsRead? {
        TransferKeeps(b, evs[1..], v, key, Stays(aim));
      }
    } else {
      assert Known(b, v, key, Before(aim));
      EventDoes(b, evs[1..], v, key, aim, ev);
    }
  }

  lemma {:induction false} AllDoneStays(parent: Expr, items: seq<Expr>, a: Analysis, v: HirId, key: HirId, aim: Aim)
    requires forall i :: 0 <= i < |items| ==> items[i] < parent && Allows(items[i], v, key, Stays(aim))
    requires Done(a, v, key, aim)
    ensures Done(VisitAll(parent, items, a), v, key, aim)
  {
    AllGrow(parent, items, a);
    if !aim.FindsRead? {
      AllKeep(parent, items, a, v, key, Stays(aim));
    }
  }

  lemma {:induction false} ReachesInChild(e: Expr, path: seq<Expr>, a: Analysis, v: HirId, key: HirId, aim: Aim)
    requires Straight(e) && |path| > 1
    requires LeadsTo(path, e, v, key, aim) && Allows(e, v, key, Stays(aim)) && Known(a, v, key, Before(aim))
    ensures Done(Visit(e, a), v, key, aim)
    decreases e, 1, 0
  {
    ChildrenSmaller(e);
    PathOn(path, e, v, key, aim);
    ChildrenAreTheParts(e, path[1]);
    AllowsBefore(e, v, key, aim);
    AllowsNode(e, v, key, Before(aim));
    NodeEventsAllowed(e, v, key, Before(aim));
    TransferKeeps(a, EventsOf(e), v, key, Before(aim));
    ChildrenAllow(e, v, key, Stays(aim));
    var i :| 0 <= i < |Children(e)| && Children(e)[i] == path[1];
    ReachesInAll(e, Children(e), i, path[1..], TransferAll(a, EventsOf(e)), v, key, aim);
  }

  lemma {:induction false} ReachesInAll(parent: Expr, items: seq<Expr>, i: nat, path: seq<Expr>, a: Analysis,
                                        v: HirId, key: HirId, aim: Aim)
    requires forall j :: 0 <= j < |items| ==> items[j] < parent && Allows(items[j], v, key, Stays(aim))
    requires i < |items| && LeadsTo(path, items[i], v, key, aim) && Known(a, v, key, Before(aim))
    ensures Done(VisitAll(parent, items, a), v, key, aim)
    decreases parent, 0, |items|
  {
    if i == 0 {
      Reaches(items[0], path, a, v, key, aim);
      AllDoneStays(parent, items[1..], Visit(items[0], a), v, key, aim);
    } else {
      AllowsBefore(items[0], v, key, aim);
      VisitKeeps(items[0], a, v, key, Before(aim));
      ReachesInAll(parent, items[1..], i - 1, path, Visit(items[0], a), v, key, aim);
    }
  }

  lemma {:induction false} ReachesInIf(e: Expr, path: seq<Expr>, a: Analysis, v: HirId, key: HirId, aim: Aim)
    requires e.If? && |path| > 1 && forall part :: IsPart(e, part) ==> Allows(part, v, key, Stays(aim))
    requires LeadsTo(path, e, v, key, aim) && Known(a, v, key, Before(aim))
    ensures Done(Visit(e, a), v, key, aim)
    decreases e, 1, 0
  {
    PathOn(path, e, v, key, aim);
    AllowsBefore(e.cond, v, key, aim);
    AllowsBefore(e.thenBranch, v, key, aim);
    VisitKeeps(e.cond, a, v, key, Before(aim));
    var a1 := Visit(e.cond, a);
    VisitKeeps(e.thenBranch, a1, v, key, Before(aim));
    var thn := Visit(e.thenBranch, a1);
    var restart := thn.(dirty := a1.dirty);
    var els := restart;
    if e.elseBranch.Some? {
      AllowsBefore(e.elseBranch.value, v, key, aim);
      VisitKeeps(e.elseBranch.value, restart, v, key, Before(aim));
      VisitGrows(e.elseBranch.value, restart);
      els := Visit(e.elseBranch.value, restart);
    }
    if path[1] == e.cond {
      Reaches(e.cond, path[1..], a, v, key, aim);
      DoneStays(e.thenBranch, a1, v, key, aim);
    } else if path[1] == e.thenBranch {
      Reaches(e.thenBranch, path[1..], a1, v, key, aim);
    } else {
      Reaches(e.elseBranch.value, path[1..], restart, v, key, aim);
    }
  }

  lemma {:induction false} ReachesInMatch(e: Expr, path: seq<Expr>, a: Analysis, v: HirId, key: HirId, aim: Aim)
    requires e.Match? && e.normal && |path| > 1 && Allows(e, v, key, Stays(aim))
    requires LeadsTo(path, e, v, key, aim) && Known(a, v, key, Before(aim))
    ensures Done(Visit(e, a), v, key, aim)
    decreases e, 1, 0
  {
    PathOn(path, e, v, key, aim);
    AllowsNode(e, v, key, Stays(aim));
    ArmsAllow(e, v, key, Stays(aim));
    AllowsBefore(e.scrutinee, v, key, aim);
    VisitKeeps(e.scrutinee, a, v, key, Before(aim));
    var a1, bound := Visit(e.scrutinee, a), KeyOf(e.scrutinee);
    assert a1.(dirty := a1.dirty) == a1;
    if path[1] == e.scrutinee {
      Reaches(e.scrutinee, path[1..], a, v, key, aim);
      ArmsDoneStays(e, e.arms, bound, a1.dirty, a1, v, key, aim);
    } else {
      var i :| 0 <= i < |e.arms| && (e.arms[i].body == path[1] || e.arms[i].guard == Some(path[1]));
      ReachesInArms(e, e.arms, i, path[1..], bound, a1.dirty, a1, v, key, aim);
    }
  }

  lemma ArmAllowsBefore(arm: Arm, bound: Option<HirId>, v: HirId, key: HirId, aim: Aim)
    requires ArmAllows(arm, bound, v, key, Stays(aim))
    ensures ArmAllows(arm, bound, v, key, Before(aim))
  {
    AllowsBefore(arm.body, v, key, aim);
    if arm.guard.Some? {
      AllowsBefore(arm.guard.value, v, key, aim);
    }
  }

  /** What is done in the merged state stays done, also if the arms start from a state in which it is not. */
  lemma {:induction false} ArmsDoneStays(parent: Expr, arms: seq<Arm>, bound: Option<HirId>, pre: Dirty, a: Analysis,
                                         v: HirId, key: HirId, aim: Aim)
    requires forall i :: 0 <= i < |arms| ==> arms[i] < parent && ArmAllows(arms[i], bound, v, key, Stays(aim))
    requires !aim.MakesClean? && Done(a, v, key, aim) && Known(a.(dirty := pre), v, key, Before(aim))
    ensures Done(VisitArms(parent, arms, bound, pre, a), v, key, aim)
    decreases |arms|
  {
    if arms != [] {
      var start := a.(dirty := pre);
      ArmAllowsBefore(arms[0], bound, v, key, aim);
      ArmKeeps(parent, arms[0], bound, start, v, key, Before(aim));
      ArmGrows(parent, arms[0], bound, start);
      var after := VisitArm(parent, arms[0], bound, start);
      ArmsDoneStays(parent, arms[1..], bound, pre, after.(dirty := MergeStates(a.dirty, after.dirty)), v, key, aim);
    }
  }

  lemma {:induction false} ReachesInArms(parent: Expr, arms: seq<Arm>, i: nat, path: seq<Expr>, bound: Option<HirId>,
                                         pre: Dirty, a: Analysis, v: HirId, key: HirId, aim: Aim)
    requires forall j :: 0 <= j < |arms| ==> arms[j] < parent && ArmAllows(arms[j], bound, v, key, Stays(aim))
    requires i < |arms| && path != [] && (arms[i].body == path[0] || arms[i].guard == Some(path[0]))
    requires !aim.MakesClean? && LeadsTo(path, path[0], v, key, aim)
    requires Known(a, v, key, Before(aim)) && Known(a.(dirty := pre), v, key, Before(aim))
    ensures Done(VisitArms(parent, arms, bound, pre, a), v, key, aim)
    decreases parent, 0, 1 + |arms|
  {
    var start := a.(dirty := pre);
    ArmAllowsBefore(arms[0], bound, v, key, aim);
    ArmKeeps(parent, arms[0], bound, start, v, key, Before(aim));
    var after := VisitArm(parent, arms[0], bound, start);
    var merged := after.(dirty := MergeStates(a.dirty, after.dirty));
    if i == 0 {
      ReachesInArm(parent, arms[0], path, bound, start, v, key, aim);
      ArmsDoneStays(parent, arms[1..], bound, pre, merged, v, key, aim);
    } else {
      ReachesInArms(parent, arms[1..], i - 1, path, bound, pre, merged, v, key, aim);
    }
  }

  lemma {:induction false} ReachesInArm(parent: Expr, arm: Arm, path: seq<Expr>, bound: Option<HirId>, a: Analysis,
                                        v: HirId, key: HirId, aim: Aim)
    requires arm < parent && ArmAllows(arm, bound, v, key, Stays(aim)) && Known(a, v, key, Before(aim))
    requires path != [] && (arm.body == path[0] || arm.guard == Some(path[0])) && LeadsTo(path, path[0], v, key, aim)
    ensures Done(VisitArm(parent, arm, bound, a), v, key, aim)
    decreases parent, 0, 0
  {
    ArmAllowsBefore(arm, bound, v, key, aim);
    var a1 := a;
    if bound.Some? {
      TransferKeeps(a, BindAll(arm.armPat, bound.value), v, key, Before(aim));
      a1 := TransferAll(a, BindAll(arm.armPat, bound.value));
    }
    if arm.guard == Some(path[0]) {
      Reaches(arm.guard.value, path, a1, v, key, aim);
      DoneStays(arm.body, Visit(arm.guard.value, a1), v, key, aim);
    } else {
      if arm.guard.Some? {
        VisitKeeps(arm.guard.value, a1, v, key, Before(aim));
        a1 := Visit(arm.guard.value, a1);
      }
      Reaches(arm.body, path, a1, v, key, aim);
    }
  }

  /** Wherever they are in an expression: a read of a key is reported if a local bound from it is modified, a
      modification leaves its local modified, and a write in straight code leaves the locals of its key clean; as long
      as nothing else in the expression undoes it. */
  lemma NothingIsPassedOver(e: Expr, a: Analysis, v: HirId, key: HirId, aim: Aim)
    requires (exists path :: LeadsTo(path, e, v, key, aim))
    requires Allows(e, v, key, Stays(aim)) && Known(a, v, key, Before(aim))
    ensures Done(Visit(e, a), v, key, aim)
  {
    var path :| LeadsTo(path, e, v, key, aim);
    Reaches(e, path, a, v, key, aim);
  }

  // ----- bind, modify, read -----

  lemma {:induction false} BindAllTracks(a: Analysis, pat: seq<HirId>, v: HirId, key: HirId)
    requires v in pat
    ensures Known(TransferAll(a, BindAll(pat, key)), v, key, Tracked)
    decreases |pat|
  {
    var b := Transfer(a, Bind(pat[0], key));
    assert BindAll(pat, key)[0] == Bind(pat[0], key) && BindAll(pat, key)[1..] == BindAll(pat[1..], key);
    if v in pat[1..] {
      BindAllTracks(b, pat[1..], v, key);
    } else {
      forall ev | ev in BindAll(pat[1..], key)
        ensures EventAllowed(ev, v, key, Tracked)
      {
        var i :| 0 <= i < |pat| - 1 && ev == BindAll(pat[1..], key)[i];
        assert ev.v == pat[1..][i] && pat[1..][i] in pat[1..];
      }
      TransferKeeps(b, BindAll(pat[1..], key), v, key, Tracked);
    }
  }

  /** The local is tracked after a `let` that binds it, or in the branch of an `if let`. */
  lemma BindingTracks(e: Expr, a: Analysis, v: HirId, key: HirId)
    requires Binds(e, v, key) && forall part :: IsPart(e, part) ==> Allows(part, v, key, Tracked)
    ensures Known(Visit(e, a), v, key, Tracked)
  {
    ChildrenSmaller(e);
    var pat, init := if e.LetStmt? then e.pat else e.condPat, if e.LetStmt? then e.init.value else e.condInit;
    KeyMeaning(init, key);
    assert EventsOf(e) == BindAll(pat, key);
    BindAllTracks(a, pat, v, key);
    AllKeep(e, Children(e), TransferAll(a, EventsOf(e)), v, key, Tracked);
  }

  ghost predicate ModifiesThenReads(x: Expr, y: Expr, v: HirId, key: HirId, site: Site) {
    && Allows(x, v, key, StaysModified) && (exists path :: LeadsTo(path, x, v, key, MakesModified))
    && Allows(y, v, key, StaysModified) && (exists path :: LeadsTo(path, y, v, key, FindsRead(site)))
  }

  lemma PairVisit(x: Expr, y: Expr, a: Analysis)
    ensures Visit(Sequence([x, y]), a) == Visit(y, Visit(x, a))
  {
    var e := Sequence([x, y]);
    ChildrenSmaller(e);
    assert [x, y][0] == x && [x, y][1..] == [y] && [y][1..] == [];
    assert EventsOf(e) == [] && Children(e) == [x, y];
    assert VisitAll(e, [y], Visit(x, a)) == VisitAll(e, [y][1..], Visit(y, Visit(x, a)));
  }

  lemma TrackedThenRead(x: Expr, y: Expr, a: Analysis, v: HirId, key: HirId, site: Site)
    requires Known(a, v, key, Tracked) && ModifiesThenReads(x, y, v, key, site)
    ensures site in Visit(Sequence([x, y]), a).findings
  {
    PairVisit(x, y, a);
    NothingIsPassedOver(x, a, v, key, MakesModified);
    NothingIsPassedOver(y, Visit(x, a), v, key, FindsRead(site));
  }

  /** `let .. v .. = storage.get(&k)..; x; y` from any state: the read in `y` is reported. */
  lemma LetModifyRead(binding: Expr, x: Expr, y: Expr, a: Analysis, v: HirId, key: HirId, site: Site)
    requires Binds(binding, v, key) && forall part :: IsPart(binding, part) ==> Allows(part, v, key, Tracked)
    requires ModifiesThenReads(x, y, v, key, site)
    ensures site in Visit(Sequence([binding, Sequence([x, y])]), a).findings
  {
    PairVisit(binding, Sequence([x, y]), a);
    BindingTracks(binding, a, v, key);
    TrackedThenRead(x, y, Visit(binding, a), v, key, site);
  }

  /** `if let .. v .. = storage.get(&k).. { x; y } else { .. }`. */
  lemma IfLetModifyRead(binding: Expr, x: Expr, y: Expr, els: Option<Expr>, a: Analysis, v: HirId, key: HirId,
                        site: Site)
    requires binding.LetCond? && Binds(binding, v, key) && forall part :: IsPart(binding, part) ==>
        Allows(part, v, key, Tracked)
    requires ModifiesThenReads(x, y, v, key, site)
    ensures site in Visit(If(binding, Sequence([x, y]), els), a).findings
  {
    BindingTracks(binding, a, v, key);
    var a1 := Visit(binding, a);
    TrackedThenRead(x, y, a1, v, key, site);
    if els.Some? {
      VisitGrows(els.value, Visit(Sequence([x, y]), a1).(dirty := a1.dirty));
    }
  }

  /** `match storage.get(&k).. { .., .. v .. => { x; y }, .. }`. */
  lemma MatchModifyRead(scrutinee: Expr, first: seq<Arm>, pat: seq<HirId>, x: Expr, y: Expr, rest: seq<Arm>,
                        a: Analysis,
                        v: HirId, key: HirId, site: Site)
    requires IsReadOf(scrutinee, key) && v in pat && ModifiesThenReads(x, y, v, key, site)
    ensures var arm := Arm(pat, None, Sequence([x, y]));
            site in Visit(Match(scrutinee, first + [arm] + rest, true), a).findings
  {
    var arm := Arm(pat, None, Sequence([x, y]));
    var e := Match(scrutinee, first + [arm] + rest, true);
    KeyMeaning(scrutinee, key);
    var a1 := Visit(scrutinee, a);
    ArmReports(e, e.arms, |first|, a1.dirty, a1, x, y, v, key, site);
  }

  lemma {:induction false} ArmReports(e: Expr, arms: seq<Arm>, i: nat, pre: Dirty, a: Analysis, x: Expr, y: Expr,
                                      v: HirId, key: HirId, site: Site)
    requires forall j :: 0 <= j < |arms| ==> arms[j] < e
    requires i < |arms| && v in arms[i].armPat && arms[i].guard.None? && arms[i].body == Sequence([x, y])
    requires ModifiesThenReads(x, y, v, key, site)
    ensures site in VisitArms(e, arms, Some(key), pre, a).findings
    decreases |arms|
  {
    var start := a.(dirty := pre);
    var after := VisitArm(e, arms[0], Some(key), start);
    var merged := after.(dirty := MergeStates(a.dirty, after.dirty));
    if i == 0 {
      BindAllTracks(start, arms[0].armPat, v, key);
      TrackedThenRead(x, y, TransferAll(start, BindAll(arms[0].armPat, key)), v, key, site);
      ArmsGrow(e, arms[1..], Some(key), pre, merged);
    } else {
      ArmReports(e, arms[1..], i - 1, pre, merged, x, y, v, key, site);
    }
  }
}
