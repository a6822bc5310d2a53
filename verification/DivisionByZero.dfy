/** The visitor of division-by-zero, and what its silence is worth. */
module DivisionByZero {
  import opened Options
  import opened Hir
  import opened HirScopes
  import opened DivisionGuards
  import opened DivisionSoundness
  import opened DivisionWalks

  ghost predicate Trusted(t: Typing) {
    NeverTypesHold(t) && EvaluationHolds(t)
  }

  ghost predicate Clean(t: Typing, e: Expr) {
    All(e, ExprsOk(t), StmtsOk(t))
  }

  // ----- guards are earned -----

  lemma {:induction false} LastStmtDiverges(t: Typing, stmts: seq<Stmt>, s: State, fuel: nat)
    requires NeverTypesHold(t) && stmts != [] && stmts[|stmts| - 1].ExprStmt? &&
        ExprDiverges(t, stmts[|stmts| - 1].expr)
    ensures !EvalStmts(stmts, s, fuel).0.Val?
  {
    if |stmts| == 1 {
      ExprNeverCompletes(t, stmts[0].expr, s, fuel);
    } else {
      LastStmtDiverges(t, stmts[1..], EvalStmt(stmts[0], s, fuel).1, fuel);
    }
  }

  lemma ExprNeverCompletes(t: Typing, e: Expr, s: State, fuel: nat)
    requires NeverTypesHold(t) && ExprDiverges(t, e)
    ensures !Eval(e, s, fuel).0.Val?
  {
  }

  lemma BranchNeverCompletes(t: Typing, branch: Expr, s: State, fuel: nat)
    requires NeverTypesHold(t) && BranchDiverges(t, branch) && Unlabeled(branch)
    ensures !Eval(branch, s, fuel).0.Val?
  {
    if branch.BlockExpr? {
      var b := branch.block;
      if b.tail.Some? {
        ExprNeverCompletes(t, b.tail.value, EvalStmts(b.stmts, s, fuel).1, fuel);
      } else {
        LastStmtDiverges(t, b.stmts, s, fuel);
      }
    } else {
      ExprNeverCompletes(t, branch, s, fuel);
    }
  }

  /** Past `if d == 0 { diverge }` (or `if d != 0 { .. } else { diverge }`) the local is not zero. */
  lemma ZeroGuardHolds(t: Typing, e: Expr, scope: set<HirId>, s: State, fuel: nat)
    requires NeverTypesHold(t) && Scoped(e, scope) && ExprOk(t, e)
    requires DivergingZeroGuard(t, e).Some? && Eval(e, s, fuel).0.Val?
    ensures DivergingZeroGuard(t, e).value in scope && Nonzero(DivergingZeroGuard(t, e).value, Eval(e, s, fuel).1)
  {
    var c := PeelDropTemps(e.cond);
    assert Eval(c, s, fuel) == Eval(e.cond, s, fuel) && Scoped(c, scope);
    ZeroComparisonMeaning(c, s, fuel);
    ZeroComparisonScoped(c, scope);
    var b := Eval(c, s, fuel).0.v.b;
    if b == ZeroComparison(c).value.1 {
      BranchNeverCompletes(t, if b then e.thenBranch else e.elseBranch.value, s, fuel);
    } else if b {
      FrameExpr(e.thenBranch, scope, s, fuel);
    } else if e.elseBranch.Some? {
      FrameExpr(e.elseBranch.value, scope, s, fuel);
    }
  }

  /** Past `if c.is_empty() { diverge }` (or `if c.len() < n { diverge }`) the collection is not empty. */
  lemma NonemptyGuardHolds(t: Typing, e: Expr, scope: set<HirId>, s: State, fuel: nat)
    requires NeverTypesHold(t) && Scoped(e, scope) && ExprOk(t, e)
    requires DivergingNonemptyGuard(t, e).Some? && SideEffectFree(DivergingNonemptyGuard(t, e).value)
    requires Eval(e, s, fuel).0.Val?
    ensures Scoped(DivergingNonemptyGuard(t, e).value, scope)
    ensures Nonempty(DivergingNonemptyGuard(t, e).value, Eval(e, s, fuel).1)
  {
    var r := DivergingNonemptyGuard(t, e).value;
    var c := PeelDropTemps(PeelDropTemps(e.cond));
    assert Scoped(PeelDropTemps(e.cond), scope) && Eval(PeelDropTemps(e.cond), s, fuel) == Eval(e.cond, s, fuel);
    assert Eval(c, s, fuel) == Eval(e.cond, s, fuel) && Scoped(c, scope);
    ReceiverNonempty(c, r, scope, s, fuel);
    var o := Eval(c, s, fuel).0;
    if o.v.b {
      BranchNeverCompletes(t, e.thenBranch, s, fuel);
    } else {
      if e.elseBranch.Some? {
        FrameExpr(e.elseBranch.value, scope, s, fuel);
      }
      PureStable(r, scope, s, Eval(e, s, fuel).1, 0, 0);
    }
  }

  /** An emptiness check that fails leaves a non-empty receiver, and it changes nothing. */
  lemma ReceiverNonempty(c: Expr, r: Expr, scope: set<HirId>, s: State, fuel: nat)
    requires Scoped(c, scope) && Eval(c, s, fuel).0.Val? && Eval(c, s, fuel).0.v.VBool? && SideEffectFree(r)
    requires StandardCheck(c)
    requires || (c.MethodCall? && c.name == IsEmpty && c.args == [] && c.receiver == r)
             || (c.Binary? && c.op in {Lt, Le} && LenCallReceiver(c.lhs) == Some(r) && IsPositiveLiteral(c.rhs))
    ensures Scoped(r, scope) && Eval(c, s, fuel).1 == s
    ensures !Eval(c, s, fuel).0.v.b ==> Nonempty(r, s)
  {
    if c.MethodCall? {
      EmptyCheckOutcome(c, scope, s, fuel);
    } else {
      ShortCheckOutcome(c, scope, s, fuel);
    }
  }

  lemma ShortCheckOutcome(c: Expr, scope: set<HirId>, s: State, fuel: nat)
    requires c.Binary? && c.op in {Lt, Le} && IsPositiveLiteral(c.rhs) && Eval(c, s, fuel).0.Val?
    requires c.lhs.MethodCall? && c.lhs.standard && c.lhs.name == Len && c.lhs.args == []
    requires SideEffectFree(c.lhs.receiver) && Scoped(c.lhs.receiver, scope)
    ensures Eval(c, s, fuel).1 == s && Eval(c, s, fuel).0.v.VBool?
    ensures !Eval(c, s, fuel).0.v.b ==> Nonempty(c.lhs.receiver, s)
  {
    LengthIsPure(c.lhs, scope, s, fuel);
    assert Eval(c.rhs, s, fuel) == (Val(VInt(c.rhs.intValue)), s);
  }

  lemma EmptyCheckOutcome(c: Expr, scope: set<HirId>, s: State, fuel: nat)
    requires c.MethodCall? && c.standard && c.name == IsEmpty && c.args == [] && SideEffectFree(c.receiver)
    requires Scoped(c.receiver, scope) && Eval(c, s, fuel).0.Val?
    ensures Eval(c, s, fuel).1 == s && Eval(c, s, fuel).0.v.VBool?
    ensures !Eval(c, s, fuel).0.v.b ==> Nonempty(c.receiver, s)
  {
    PureStable(c.receiver, scope, s, s, fuel, 0);
    assert EvalArgs(c.args, s, fuel) == (Vals([]), s);
  }

  /** A standard length changes nothing, and is positive exactly for a non-empty collection. */
  lemma LengthIsPure(c: Expr, scope: set<HirId>, s: State, fuel: nat)
    requires c.MethodCall? && c.standard && c.name == Len && c.args == [] && SideEffectFree(c.receiver)
    requires Scoped(c.receiver, scope) && Eval(c, s, fuel).0.Val?
    ensures Eval(c, s, fuel).1 == s && Eval(c, s, fuel).0.v.VInt? && 0 <= Eval(c, s, fuel).0.v.n < 0x1_0000_0000
    ensures Eval(c, s, fuel).0.v.n > 0 <==> Nonempty(c.receiver, s)
  {
    PureStable(c.receiver, scope, s, s, fuel, 0);
    assert EvalArgs(c.args, s, fuel) == (Vals([]), s);
  }

  /** A divisor that is not reported does not evaluate to zero. */
  lemma SafeDivisor(t: Typing, divisor: Expr, g: Guards, scope: set<HirId>, s: State, fuel: nat)
    requires EvaluationHolds(t) && Scoped(divisor, scope) && DivisorOk(t, divisor)
    requires Holds(t, g, scope, s) && !DivisorIsUnsafe(t, divisor, g)
    ensures Eval(divisor, s, fuel).0 != Val(VInt(0))
  {
    if IsConstant(t, divisor) {
      ConstantHasOneValue(t, divisor, scope, s, fuel);
    } else if ExprIsNonzeroValue(divisor) {
      NonzeroFormIsNonzero(divisor, s, fuel);
    } else {
      var recv := LenCallReceiver(PeelIntCast(divisor));
      if recv.Some? && exists r :: r in g.receivers && EqExprValue(r, recv.value) {
        assert recv.value in g.receivers;
        SafeLength(divisor, scope, s, fuel);
      }
    }
  }

  /** The length of a non-empty collection, possibly cast to 32 bits or more, is not zero. */
  lemma SafeLength(divisor: Expr, scope: set<HirId>, s: State, fuel: nat)
    requires LenCallReceiver(PeelIntCast(divisor)).Some? && KeepsNonzero(divisor)
    requires SideEffectFree(PeelIntCast(divisor).receiver) && Scoped(PeelIntCast(divisor).receiver, scope)
    requires Nonempty(PeelIntCast(divisor).receiver, s)
    ensures Eval(divisor, s, fuel).0 != Val(VInt(0))
  {
    var core := PeelIntCast(divisor);
    if Eval(core, s, fuel).0.Val? {
      LengthIsPure(core, scope, s, fuel);
      if divisor.Cast? {
        LongCastKeepsLength(Eval(core, s, fuel).0.v.n, divisor.target.value);
      }
    }
  }

  // ----- the whole body -----

  lemma {:induction false} GuardedExpr(t: Typing, e: Expr, g: Guards, scope: set<HirId>, s: State, fuel: nat)
    requires Trusted(t) && Scoped(e, scope) && Clean(t, e)
    requires Holds(t, g, scope, s) && Findings(t, e, g, Full) == []
    ensures Eval(e, s, fuel).0 != DivByZero
    decreases fuel, e, 2
  {
    match e
    case Field(base, _) => GuardedExpr(t, base, g, scope, s, fuel);
    case Unary(_, _, x) => GuardedExpr(t, x, g, scope, s, fuel);
    case Binary(_, _, _, _) => GuardedBinary(t, e, g, scope, s, fuel);
    case Cast(x, _) => GuardedExpr(t, x, g, scope, s, fuel);
    case DropTemps(x) => GuardedExpr(t, x, g, scope, s, fuel);
    case If(_, _, _) => GuardedIf(t, e, g, scope, s, fuel);
    case Match(_, _) => GuardedMatch(t, e, g, scope, s, fuel);
    case BlockExpr(_, block) => GuardedBlock(t, block, g, scope, s, fuel);
    case Loop(_, _, _, _) => GuardedLoop(t, e, g, scope, s, fuel);
    case Break(_, value) => if value.Some? { GuardedExpr(t, value.value, g, scope, s, fuel); }
    case Ret(value) => if value.Some? { GuardedExpr(t, value.value, g, scope, s, fuel); }
    case Call(args, _) => GuardedArgs(t, args, g, scope, s, fuel);
    case MethodCall(_, _, _, _, _) => GuardedMethodCall(t, e, g, scope, s, fuel);
    case _ =>
  }

  lemma {:induction false} GuardedLoop(t: Typing, e: Expr, g: Guards, scope: set<HirId>, s: State, fuel: nat)
    requires Trusted(t) && Scoped(e, scope) && Clean(t, e) && e.Loop?
    requires Holds(t, g, scope, s) && Findings(t, e, g, Full) == []
    ensures Eval(e, s, fuel).0 != DivByZero
    decreases fuel, e, 1
  {
    GuardedBlock(t, e.body, g, scope, s, fuel);
    if fuel > 0 {
      FrameBlock(e.body, scope, s, fuel);
      var s1 := EvalBlock(e.body, s, fuel).1;
      HoldsLater(t, g, scope, s, s1);
      GuardedExpr(t, e, g, scope, s1, fuel - 1);
    }
  }

  lemma {:induction false} GuardedMethodCall(t: Typing, e: Expr, g: Guards, scope: set<HirId>, s: State, fuel: nat)
    requires Trusted(t) && Scoped(e, scope) && Clean(t, e) && e.MethodCall?
    requires Holds(t, g, scope, s) && Findings(t, e, g, Full) == []
    ensures Eval(e, s, fuel).0 != DivByZero
    decreases fuel, e, 1
  {
    MethodCallFindsNothing(t, e, g);
    GuardedExpr(t, e.receiver, g, scope, s, fuel);
    FrameExpr(e.receiver, scope, s, fuel);
    var s1 := Eval(e.receiver, s, fuel).1;
    HoldsLater(t, g, scope, s, s1);
    GuardedArgs(t, e.args, g, scope, s1, fuel);
    if Eval(e, s, fuel).0 == DivByZero {
      WhereMethodCallDivides(e, s, fuel);
    }
  }

  lemma MethodCallFindsNothing(t: Typing, e: Expr, g: Guards)
    requires e.MethodCall? && Findings(t, e, g, Full) == []
    ensures Findings(t, e.receiver, g, Full) == [] && FindingsInArgs(t, e.args, g, Full) == []
  {
    assert FindingsBelow(t, e, g, Full) == Findings(t, e.receiver, g, Full) + FindingsInArgs(t, e.args, g, Full);
  }

  /** A method call divides by zero only in its receiver or its arguments. */
  lemma WhereMethodCallDivides(e: Expr, s: State, fuel: nat)
    requires e.MethodCall? && Eval(e, s, fuel).0 == DivByZero
    ensures || Eval(e.receiver, s, fuel).0 == DivByZero
            || EvalArgs(e.args, Eval(e.receiver, s, fuel).1, fuel).0 == Halt(DivByZero)
  {
  }

  lemma {:induction false} GuardedBinary(t: Typing, e: Expr, g: Guards, scope: set<HirId>, s: State, fuel: nat)
    requires Trusted(t) && Scoped(e, scope) && Clean(t, e) && e.Binary?
    requires Holds(t, g, scope, s) && Findings(t, e, g, Full) == []
    ensures Eval(e, s, fuel).0 != DivByZero
    decreases fuel, e, 1
  {
    BinaryFindsNothing(t, e, g);
    GuardedExpr(t, e.lhs, g, scope, s, fuel);
    FrameExpr(e.lhs, scope, s, fuel);
    var s1 := Eval(e.lhs, s, fuel).1;
    HoldsLater(t, g, scope, s, s1);
    GuardedExpr(t, e.rhs, g, scope, s1, fuel);
    if Eval(e, s, fuel).0 == DivByZero {
      WhereBinaryDivides(e, s, fuel);
      SafeDivisor(t, e.rhs, g, scope, s1, fuel);
    }
  }

  lemma BinaryFindsNothing(t: Typing, e: Expr, g: Guards)
    requires e.Binary? && Findings(t, e, g, Full) == []
    ensures Findings(t, e.lhs, g, Full) == [] && Findings(t, e.rhs, g, Full) == []
    ensures IsIntDivision(e) ==> !DivisorIsUnsafe(t, e.rhs, g)
  {
    assert FindingsBelow(t, e, g, Full) == Findings(t, e.lhs, g, Full) + Findings(t, e.rhs, g, Full);
  }

  /** A binary operation divides by zero in an operand, or because its divisor is zero. */
  lemma WhereBinaryDivides(e: Expr, s: State, fuel: nat)
    requires e.Binary? && Eval(e, s, fuel).0 == DivByZero
    ensures var s1 := Eval(e.lhs, s, fuel).1;
            || Eval(e.lhs, s, fuel).0 == DivByZero
            || Eval(e.rhs, s1, fuel).0 == DivByZero
            || (IsIntDivision(e) && Eval(e.rhs, s1, fuel).0 == Val(VInt(0)))
  {
  }

  lemma {:induction false} GuardedIf(t: Typing, e: Expr, g: Guards, scope: set<HirId>, s: State, fuel: nat)
    requires Trusted(t) && Scoped(e, scope) && Clean(t, e) && e.If?
    requires Holds(t, g, scope, s) && Findings(t, e, g, Full) == []
    ensures Eval(e, s, fuel).0 != DivByZero
    decreases fuel, e, 1
  {
    FrameExpr(e.cond, scope, s, fuel);
    var (o, s1) := Eval(e.cond, s, fuel);
    HoldsLater(t, g, scope, s, s1);
    if LocalsNonzeroOnTrue(e.cond) == [] {
      GuardedExpr(t, e.cond, g, scope, s, fuel);
      GuardedExpr(t, e.thenBranch, g, scope, s1, fuel);
    } else {
      GuardedCondition(t, e.cond, g, scope, s, fuel);
      if o == Val(VBool(true)) {
        ProvenHolds(t, e.cond, g, scope, s, fuel);
        GuardedExpr(t, e.thenBranch, Proven(g, e.cond), scope, s1, fuel);
      }
    }
    if e.elseBranch.Some? {
      GuardedExpr(t, e.elseBranch.value, g, scope, s1, fuel);
    }
  }

  /** Where a condition holds, so do the guards that it proves. */
  lemma ProvenHolds(t: Typing, cond: Expr, g: Guards, scope: set<HirId>, s: State, fuel: nat)
    requires Scoped(cond, scope) && NoLabels(cond) && Eval(cond, s, fuel).0 == Val(VBool(true))
    requires Holds(t, g, scope, s)
    ensures Holds(t, Proven(g, cond), scope, Eval(cond, s, fuel).1)
  {
    FrameExpr(cond, scope, s, fuel);
    HoldsLater(t, g, scope, s, Eval(cond, s, fuel).1);
    ProvenLocalsNonzero(cond, scope, s, fuel);
  }

  /** A conjunct is evaluated where those before it hold. */
  lemma {:induction false} GuardedCondition(t: Typing, cond: Expr, g: Guards, scope: set<HirId>, s: State, fuel: nat)
    requires Trusted(t) && Scoped(cond, scope) && Clean(t, cond) && NoLabels(cond)
    requires Holds(t, g, scope, s) && FindingsInCondition(t, cond, g) == []
    ensures Eval(cond, s, fuel).0 != DivByZero
    decreases fuel, cond, 3
  {
    match cond
    case DropTemps(x) => GuardedCondition(t, x, g, scope, s, fuel);
    case Binary(And, _, _, _) => GuardedAnd(t, cond, g, scope, s, fuel);
    case If(_, _, Some(els)) =>
      if IsFalseLiteral(els) {
        GuardedLoweredAnd(t, cond, g, scope, s, fuel);
      } else {
        GuardedExpr(t, cond, g, scope, s, fuel);
      }
    case BlockExpr(_, Block(stmts, Some(_))) =>
      if stmts == [] {
        GuardedTail(t, cond, g, scope, s, fuel);
      } else {
        GuardedExpr(t, cond, g, scope, s, fuel);
      }
    case _ => GuardedExpr(t, cond, g, scope, s, fuel);
  }

  lemma {:induction false} GuardedAnd(t: Typing, cond: Expr, g: Guards, scope: set<HirId>, s: State, fuel: nat)
    requires Trusted(t) && Scoped(cond, scope) && Clean(t, cond) && NoLabels(cond)
    requires Holds(t, g, scope, s) && FindingsInCondition(t, cond, g) == []
    requires cond.Binary? && cond.op == And
    ensures Eval(cond, s, fuel).0 != DivByZero
    decreases fuel, cond, 2
  {
    GuardedConjuncts(t, cond, cond.lhs, cond.rhs, g, scope, s, fuel);
  }

  lemma {:induction false} GuardedLoweredAnd(t: Typing, cond: Expr, g: Guards, scope: set<HirId>, s: State, fuel: nat)
    requires Trusted(t) && Scoped(cond, scope) && Clean(t, cond) && NoLabels(cond)
    requires Holds(t, g, scope, s) && FindingsInCondition(t, cond, g) == []
    requires cond.If? && cond.elseBranch.Some? && IsFalseLiteral(cond.elseBranch.value)
    ensures Eval(cond, s, fuel).0 != DivByZero
    decreases fuel, cond, 2
  {
    GuardedConjuncts(t, cond, cond.cond, cond.thenBranch, g, scope, s, fuel);
    FalseLiteralIsFalse(cond.elseBranch.value, Eval(cond.cond, s, fuel).1, fuel);
  }

  lemma {:induction false} GuardedTail(t: Typing, cond: Expr, g: Guards, scope: set<HirId>, s: State, fuel: nat)
    requires Trusted(t) && Scoped(cond, scope) && Clean(t, cond) && NoLabels(cond)
    requires Holds(t, g, scope, s) && FindingsInCondition(t, cond, g) == []
    requires cond.BlockExpr? && cond.block.stmts == [] && cond.block.tail.Some?
    ensures Eval(cond, s, fuel).0 != DivByZero
    decreases fuel, cond, 2
  {
    TailConditionClean(t, cond, scope);
    GuardedCondition(t, cond.block.tail.value, g, scope, s, fuel);
    assert EvalStmts(cond.block.stmts, s, fuel) == (Val(VUnit), s);
  }

  lemma TailConditionClean(t: Typing, cond: Expr, scope: set<HirId>)
    requires cond.BlockExpr? && cond.block.stmts == [] && cond.block.tail.Some?
    requires Scoped(cond, scope) && Clean(t, cond) && NoLabels(cond)
    ensures var tail := cond.block.tail.value; Scoped(tail, scope) && Clean(t, tail) && NoLabels(tail)
  {
    assert ScopedBlock(cond.block, scope) && AllBlock(cond.block, ExprsOk(t), StmtsOk(t));
    assert AllBlock(cond.block, Unlabeled, AnyStmt);
  }

  lemma {:induction false} GuardedConjuncts(t: Typing, cond: Expr, l: Expr, r: Expr, g: Guards, scope: set<HirId>,
                                             s: State, fuel: nat)
    requires l < cond && r < cond && Trusted(t) && Holds(t, g, scope, s)
    requires Scoped(l, scope) && Clean(t, l) && NoLabels(l) && FindingsInCondition(t, l, g) == []
    requires Scoped(r, scope) && Clean(t, r) && NoLabels(r) && FindingsInCondition(t, r, Proven(g, l)) == []
    ensures Eval(l, s, fuel).0 != DivByZero
    ensures Eval(l, s, fuel).0 == Val(VBool(true)) ==> Eval(r, Eval(l, s, fuel).1, fuel).0 != DivByZero
    decreases fuel, cond, 1
  {
    GuardedCondition(t, l, g, scope, s, fuel);
    if Eval(l, s, fuel).0 == Val(VBool(true)) {
      ProvenHolds(t, l, g, scope, s, fuel);
      GuardedCondition(t, r, Proven(g, l), scope, Eval(l, s, fuel).1, fuel);
    }
  }

  lemma {:induction false} GuardedMatch(t: Typing, e: Expr, g: Guards, scope: set<HirId>, s: State, fuel: nat)
    requires Trusted(t) && Scoped(e, scope) && Clean(t, e) && e.Match?
    requires Holds(t, g, scope, s) && Findings(t, e, g, Full) == []
    ensures Eval(e, s, fuel).0 != DivByZero
    decreases fuel, e, 1
  {
    GuardedExpr(t, e.scrutinee, g, scope, s, fuel);
    FrameExpr(e.scrutinee, scope, s, fuel);
    var s1 := Eval(e.scrutinee, s, fuel).1;
    var (choice, s2) := Next(s1);
    if choice.Val? && choice.v.VInt? && 0 <= choice.v.n < |e.arms| {
      var i: nat := choice.v.n;
      HoldsLater(t, g, scope, s, s2);
      ScopedArm(e.arms, scope, i);
      AllArm(e.arms, ExprsOk(t), StmtsOk(t), i);
      FindingsOfArm(t, e.arms, g, i);
      GuardedExpr(t, e.arms[i], g, scope, s2, fuel);
    }
  }

  lemma {:induction false} FindingsOfArm(t: Typing, args: seq<Expr>, g: Guards, i: nat)
    requires FindingsInArgs(t, args, g, Full) == [] && i < |args|
    ensures Findings(t, args[i], g, Full) == []
  {
    if i > 0 {
      FindingsOfArm(t, args[1..], g, i - 1);
    }
  }

  lemma {:induction false} GuardedArgs(t: Typing, args: seq<Expr>, g: Guards, scope: set<HirId>, s: State, fuel: nat)
    requires Trusted(t) && ScopedArgs(args, scope) && AllArgs(args, ExprsOk(t), StmtsOk(t))
    requires Holds(t, g, scope, s) && FindingsInArgs(t, args, g, Full) == []
    ensures EvalArgs(args, s, fuel).0 != Halt(DivByZero)
    decreases fuel, args, 0
  {
    if args != [] {
      GuardedExpr(t, args[0], g, scope, s, fuel);
      FrameExpr(args[0], scope, s, fuel);
      var s1 := Eval(args[0], s, fuel).1;
      HoldsLater(t, g, scope, s, s1);
      GuardedArgs(t, args[1..], g, scope, s1, fuel);
    }
  }

  lemma {:induction false} GuardedBlock(t: Typing, block: Block, g: Guards, scope: set<HirId>, s: State, fuel: nat)
    requires Trusted(t) && ScopedBlock(block, scope) && AllBlock(block, ExprsOk(t), StmtsOk(t))
    requires Holds(t, g, scope, s) && FindingsInBlock(t, block, g, Full) == []
    ensures EvalBlock(block, s, fuel).0 != DivByZero
    decreases fuel, block, 0
  {
    GuardedStmts(t, block.stmts, g, scope, s, fuel);
    var (o, s1) := EvalStmts(block.stmts, s, fuel);
    if block.tail.Some? && o.Val? {
      GuardedExpr(t, block.tail.value, GuardsAfter(t, block.stmts, g), ScopeAfter(block.stmts, scope), s1, fuel);
    }
  }

  lemma {:induction false} GuardedStmts(t: Typing, stmts: seq<Stmt>, g: Guards, scope: set<HirId>, s: State, fuel: nat)
    requires Trusted(t) && ScopedStmts(stmts, scope) && AllStmts(stmts, ExprsOk(t), StmtsOk(t))
    requires Holds(t, g, scope, s) && FindingsInStmts(t, stmts, g, Full) == []
    ensures EvalStmts(stmts, s, fuel).0 != DivByZero
    ensures EvalStmts(stmts, s, fuel).0.Val? ==>
              Holds(t, GuardsAfter(t, stmts, g), ScopeAfter(stmts, scope), EvalStmts(stmts, s, fuel).1)
    decreases fuel, stmts, 0
  {
    if stmts != [] {
      GuardedStmt(t, stmts[0], g, scope, s, fuel);
      var (o, s1) := EvalStmt(stmts[0], s, fuel);
      if o.Val? {
        GuardsOfStmtHold(t, stmts[0], g, scope, s, fuel);
        GuardedStmts(t, stmts[1..], GuardsAfterStmt(t, stmts[0], g), scope + Bound(stmts[0]), s1, fuel);
      }
    }
  }

  lemma {:induction false} GuardedStmt(t: Typing, stmt: Stmt, g: Guards, scope: set<HirId>, s: State, fuel: nat)
    requires Trusted(t) && ScopedStmt(stmt, scope) && AllStmt(stmt, ExprsOk(t), StmtsOk(t))
    requires Holds(t, g, scope, s) && FindingsInStmt(t, stmt, g, Full) == []
    ensures EvalStmt(stmt, s, fuel).0 != DivByZero
    decreases fuel, stmt, 0
  {
    match stmt
    case ExprStmt(e) => GuardedExpr(t, e, g, scope, s, fuel);
    case Let(_, Some(init), els) =>
      GuardedExpr(t, init, g, scope, s, fuel);
      if els.Some? && stmt.binding.None? {
        FrameExpr(init, scope, s, fuel);
        var s2 := Next(Eval(init, s, fuel).1).1;
        HoldsLater(t, g, scope, s, s2);
        GuardedBlock(t, els.value, g, scope, s2, fuel);
      }
    case _ =>
  }

  /** After a statement that completes, the guards it adds hold. */
  lemma GuardsOfStmtHold(t: Typing, stmt: Stmt, g: Guards, scope: set<HirId>, s: State, fuel: nat)
    requires Trusted(t) && ScopedStmt(stmt, scope) && AllStmt(stmt, ExprsOk(t), StmtsOk(t))
    requires Holds(t, g, scope, s) && EvalStmt(stmt, s, fuel).0.Val?
    ensures Holds(t, GuardsAfterStmt(t, stmt, g), scope + Bound(stmt), EvalStmt(stmt, s, fuel).1)
  {
    var s1 := EvalStmt(stmt, s, fuel).1;
    FrameStmt(stmt, scope, s, fuel);
    HoldsLater(t, g, scope, s, s1);
    ConstantLetAgrees(t, stmt, scope, s, fuel);
    HoldsWider(t, g, scope, scope + Bound(stmt), s1);
    if stmt.ExprStmt? {
      GuardOfIfHolds(t, stmt.expr, g, scope, s, fuel);
      assert stmt == ExprStmt(stmt.expr) && scope + Bound(stmt) == scope;
    } else if stmt.Let? && stmt.binding.Some? && stmt.init.Some? && ExprIsNonzeroValue(stmt.init.value) {
      AcceptedFormIsNonzero(t, stmt.init.value, scope, s, fuel);
    }
  }

  /** A `let` leaves the constant locals with the values recorded for them. */
  lemma ConstantLetAgrees(t: Typing, stmt: Stmt, scope: set<HirId>, s: State, fuel: nat)
    requires EvaluationHolds(t) && ScopedStmt(stmt, scope) && StmtOk(t, stmt)
    requires Agrees(t, scope, EvalStmt(stmt, s, fuel).1) && Agrees(t, scope, s) && EvalStmt(stmt, s, fuel).0.Val?
    ensures Agrees(t, scope + Bound(stmt), EvalStmt(stmt, s, fuel).1)
  {
    if stmt.Let? && stmt.binding.Some? && stmt.binding.value in t.constants {
      ConstantHasOneValue(t, stmt.init.value, scope, s, fuel);
    }
  }

  lemma AcceptedFormIsNonzero(t: Typing, e: Expr, scope: set<HirId>, s: State, fuel: nat)
    requires EvaluationHolds(t) && Scoped(e, scope) && Agrees(t, scope, s)
    requires ExprIsNonzeroValue(e) && DivisorOk(t, e)
    ensures Eval(e, s, fuel).0 != Val(VInt(0))
  {
    if IsConstant(t, e) {
      ConstantHasOneValue(t, e, scope, s, fuel);
    } else {
      NonzeroFormIsNonzero(e, s, fuel);
    }
  }

  lemma GuardOfIfHolds(t: Typing, e: Expr, g: Guards, scope: set<HirId>, s: State, fuel: nat)
    requires Trusted(t) && Scoped(e, scope) && ExprOk(t, e)
    requires Eval(e, s, fuel).0.Val? && Holds(t, g, scope, Eval(e, s, fuel).1)
    ensures Holds(t, GuardsAfterStmt(t, ExprStmt(e), g), scope, Eval(e, s, fuel).1)
  {
    if DivergingZeroGuard(t, e).Some? {
      ZeroGuardHolds(t, e, scope, s, fuel);
    } else if DivergingNonemptyGuard(t, e).Some? && SideEffectFree(DivergingNonemptyGuard(t, e).value) {
      NonemptyGuardHolds(t, e, scope, s, fuel);
    }
  }

  /** No division by zero on any run of a well-scoped, clean body in which the full walk finds nothing: with any
      values for its parameters, through loops, jumps and early returns. */
  lemma FullSilenceIsSafe(t: Typing, body: Expr, params: set<HirId>, s: State, fuel: nat)
    requires Trusted(t) && params !! t.constants.Keys && Scoped(body, params) && Clean(t, body) && s.world == t.world
    requires Findings(t, body, NO_GUARDS, Full) == []
    ensures Eval(body, s, fuel).0 != DivByZero
  {
    GuardedExpr(t, body, NO_GUARDS, params, s, fuel);
  }

  /** The same for the detector, where no condition that guards something holds a division. */
  lemma SilenceIsSafe(t: Typing, body: Expr, params: set<HirId>, s: State, fuel: nat)
    requires Trusted(t) && params !! t.constants.Keys && Scoped(body, params) && Clean(t, body) && s.world == t.world
    requires NoSkippedDivisions(body) && Findings(t, body, NO_GUARDS, Skipping) == []
    ensures Eval(body, s, fuel).0 != DivByZero
  {
    WalksAgree(t, body, NO_GUARDS);
    FullSilenceIsSafe(t, body, params, s, fuel);
  }

  // ----- the visitor itself -----

  lemma Associative<T>(a: seq<T>, b: seq<T>, c: seq<T>)
    ensures a + b + c == a + (b + c)
  {
  }

  lemma GuardingIfFindings(t: Typing, e: Expr, g: Guards, start: seq<Expr>)
    requires e.If? && LocalsNonzeroOnTrue(e.cond) != []
    ensures start + Findings(t, e, g, Skipping) ==
            start + Findings(t, e.thenBranch, Proven(g, e.cond), Skipping) +
            (if e.elseBranch.Some? then Findings(t, e.elseBranch.value, g, Skipping) else [])
  {
    var inThen := Findings(t, e.thenBranch, Proven(g, e.cond), Skipping);
    var inElse := if e.elseBranch.Some? then Findings(t, e.elseBranch.value, g, Skipping) else [];
    assert Findings(t, e, g, Skipping) == inThen + inElse;
    Associative(start, inThen, inElse);
  }

  class DivisionByZeroVisitor {
    const typing: Typing
    var guarded: set<HirId>
    var nonempty: seq<Expr>
    var findings: seq<Expr>

    constructor (typing: Typing)
      ensures this.typing == typing && Active() == NO_GUARDS && findings == []
    {
      this.typing := typing;
      guarded, nonempty, findings := {}, [], [];
    }

    ghost function Active(): Guards
      reads this
    {
      Guards(guarded, nonempty)
    }

    /** Walks an expression: pushes its findings and leaves the active guards as they were. */
    method VisitExpr(e: Expr)
      modifies this
      ensures Active() == old(Active()) && findings == old(findings + Findings(typing, e, Active(), Skipping))
      decreases e, 2
    {
      if e.If? && LocalsNonzeroOnTrue(e.cond) != [] {
        VisitGuardingIf(e);
        return;
      }
      if IsIntDivision(e) && DivisorIsUnsafe(typing, e.rhs, Guards(guarded, nonempty)) {
        findings := findings + [e];
      }
      WalkExpr(e);
    }

    /** The condition is not walked; the locals it proves protect the then-branch. */
    method VisitGuardingIf(e: Expr)
      requires e.If? && LocalsNonzeroOnTrue(e.cond) != []
      modifies this
      ensures Active() == old(Active()) && findings == old(findings + Findings(typing, e, Active(), Skipping))
      decreases e, 1
    {
      ghost var before, start := Active(), findings;
      var inserted := ToSet(LocalsNonzeroOnTrue(e.cond)) - guarded;
      guarded := guarded + inserted;
      assert Active() == Proven(before, e.cond);
      VisitExpr(e.thenBranch);
      guarded := guarded - inserted;
      assert Active() == before;
      VisitOptional(e, e.elseBranch);
      GuardingIfFindings(typing, e, before, start);
    }

    /** The children of an expression, in source order. */
    method WalkExpr(e: Expr)
      modifies this
      ensures Active() == old(Active()) && findings == old(findings + FindingsBelow(typing, e, Active(), Skipping))
      decreases e, 1
    {
      match e
      case Field(base, _) => VisitExpr(base);
      case Unary(_, _, x) => VisitExpr(x);
      case Binary(_, _, l, r) => VisitBoth(e, l, r);
      case Cast(x, _) => VisitExpr(x);
      case DropTemps(x) => VisitExpr(x);
      case If(_, _, _) => WalkControl(e);
      case Match(_, _) => WalkControl(e);
      case BlockExpr(_, block) => WalkGuardedBlock(block);
      case Loop(_, body, _, _) => WalkGuardedBlock(body);
      case Break(_, _) => WalkControl(e);
      case Ret(_) => WalkControl(e);
      case Call(args, _) => VisitArgs(args);
      case MethodCall(_, _, _, _, _) => WalkControl(e);
      case _ =>
    }

    method WalkControl(e: Expr)
      requires e.If? || e.Match? || e.Break? || e.Ret? || e.MethodCall?
      modifies this
      ensures Active() == old(Active()) && findings == old(findings + FindingsBelow(typing, e, Active(), Skipping))
      decreases e, 0, 2
    {
      match e
      case If(_, _, _) => WalkIf(e);
      case Match(x, arms) => VisitWithArgs(e, x, arms);
      case Break(_, value) => VisitOptional(e, value);
      case Ret(value) => VisitOptional(e, value);
      case MethodCall(_, _, receiver, args, _) => VisitWithArgs(e, receiver, args);
    }

    method WalkIf(e: Expr)
      requires e.If?
      modifies this
      ensures Active() == old(Active()) && findings == old(findings + FindingsBelow(typing, e, Active(), Skipping))
      decreases e, 0, 1
    {
      ghost var before, start := Active(), findings;
      VisitBoth(e, e.cond, e.thenBranch);
      VisitOptional(e, e.elseBranch);
      Associative(start, Findings(typing, e.cond, before, Skipping) + Findings(typing, e.thenBranch, before, Skipping),
                  if e.elseBranch.Some? then Findings(typing, e.elseBranch.value, before, Skipping) else []);
      assert FindingsBelow(typing, e, before, Skipping) ==
             Findings(typing, e.cond, before, Skipping) + Findings(typing, e.thenBranch, before, Skipping) +
             (if e.elseBranch.Some? then Findings(typing, e.elseBranch.value, before, Skipping) else []);
    }

    method VisitOptional(ghost parent: Expr, value: Option<Expr>)
      requires value.Some? ==> value.value < parent
      modifies this
      ensures Active() == old(Active())
      ensures findings == old(findings +
                              (if value.Some? then Findings(typing, value.value, Active(), Skipping) else []))
      decreases parent, 0, 0
    {
      if value.Some? {
        VisitExpr(value.value);
      }
    }

    method VisitBoth(ghost parent: Expr, a: Expr, b: Expr)
      requires a < parent && b < parent
      modifies this
      ensures Active() == old(Active())
      ensures findings == old(findings +
                              (Findings(typing, a, Active(), Skipping) + Findings(typing, b, Active(), Skipping)))
      decreases parent, 0, 0
    {
      ghost var before, start := Active(), findings;
      VisitExpr(a);
      VisitExpr(b);
      Associative(start, Findings(typing, a, before, Skipping), Findings(typing, b, before, Skipping));
    }

    method VisitWithArgs(ghost parent: Expr, a: Expr, args: seq<Expr>)
      requires || (parent.Match? && a == parent.scrutinee && args == parent.arms)
               || (parent.MethodCall? && a == parent.receiver && args == parent.args)
      modifies this
      ensures Active() == old(Active())
      ensures findings == old(findings +
                              (Findings(typing, a, Active(), Skipping) +
                               FindingsInArgs(typing, args, Active(), Skipping)))
      decreases parent, 0, 0
    {
      ghost var before, start := Active(), findings;
      VisitExpr(a);
      VisitArgs(args);
      Associative(start, Findings(typing, a, before, Skipping), FindingsInArgs(typing, args, before, Skipping));
    }

    method VisitArgs(args: seq<Expr>)
      modifies this
      ensures Active() == old(Active()) && findings == old(findings + FindingsInArgs(typing, args, Active(), Skipping))
      decreases args, 0
    {
      for i := 0 to |args|
        invariant Active() == old(Active())
        invariant findings + FindingsInArgs(typing, args[i..], Active(), Skipping) ==
            old(findings + FindingsInArgs(typing, args, Active(), Skipping))
      {
        assert args[i..][0] == args[i] && args[i..][1..] == args[i + 1..];
        Associative(findings, Findings(typing, args[i], Active(), Skipping),
                    FindingsInArgs(typing, args[i + 1..], Active(), Skipping));
        VisitExpr(args[i]);
      }
      assert args[|args|..] == [];
    }

    /** Guards met in the block protect the statements after them, and are dropped at its end. */
    method WalkGuardedBlock(block: Block)
      modifies this
      ensures Active() == old(Active()) &&
          findings == old(findings + FindingsInBlock(typing, block, Active(), Skipping))
      decreases block, 0
    {
      var entryGuards, entryNonempty := guarded, |nonempty|;
      ghost var before, start := Active(), findings;
      WalkStmts(block.stmts);
      if block.tail.Some? {
        VisitExpr(block.tail.value);
        Associative(start, FindingsInStmts(typing, block.stmts, before, Skipping),
                    Findings(typing, block.tail.value, GuardsAfter(typing, block.stmts, before), Skipping));
      }
      assert findings == start + FindingsInBlock(typing, block, before, Skipping);
      guarded := guarded * entryGuards;
      nonempty := nonempty[..entryNonempty];
    }

    /** Statement by statement; guards only accumulate. */
    method WalkStmts(stmts: seq<Stmt>)
      modifies this
      ensures Active() == old(GuardsAfter(typing, stmts, Active()))
      ensures findings == old(findings + FindingsInStmts(typing, stmts, Active(), Skipping))
      ensures old(guarded) <= guarded && old(nonempty) <= nonempty
      decreases stmts, 1
    {
      for i := 0 to |stmts|
        invariant old(guarded) <= guarded && old(nonempty) <= nonempty
        invariant findings + FindingsInStmts(typing, stmts[i..], Active(), Skipping) ==
                  old(findings + FindingsInStmts(typing, stmts, Active(), Skipping))
        invariant GuardsAfter(typing, stmts[i..], Active()) == old(GuardsAfter(typing, stmts, Active()))
      {
        assert stmts[i..][0] == stmts[i] && stmts[i..][1..] == stmts[i + 1..];
        Associative(findings, FindingsInStmt(typing, stmts[i], Active(), Skipping),
                    FindingsInStmts(typing, stmts[i + 1..], GuardsAfterStmt(typing, stmts[i], Active()), Skipping));
        VisitStmt(stmts[i]);
      }
      assert stmts[|stmts|..] == [];
    }

    /** Visits one statement and adds the guards it leaves behind. */
    method VisitStmt(stmt: Stmt)
      modifies this
      ensures Active() == old(GuardsAfterStmt(typing, stmt, Active()))
      ensures findings == old(findings + FindingsInStmt(typing, stmt, Active(), Skipping))
      decreases stmt, 0
    {
      match stmt
      case ExprStmt(e) =>
        VisitExpr(e);
        if DivergingZeroGuard(typing, e).Some? {
          guarded := guarded + {DivergingZeroGuard(typing, e).value};
        } else if DivergingNonemptyGuard(typing, e).Some? {
          nonempty := nonempty + [DivergingNonemptyGuard(typing, e).value];
        }
      case Let(binding, init, els) =>
        if init.Some? {
          VisitExpr(init.value);
          if ExprIsNonzeroValue(init.value) && binding.Some? {
            guarded := guarded + {binding.value};
          }
        }
        if els.Some? {
          WalkGuardedBlock(els.value);
        }
      case Item =>
    }

    /** The pass over one body: a silent pass is a proof that no run divides by zero, if no condition that guards
        something holds a division or the full walk finds nothing either. */
    method CheckBody(body: Expr, ghost params: set<HirId>)
      requires Active() == NO_GUARDS && findings == []
      modifies this
      ensures findings == Findings(typing, body, NO_GUARDS, Skipping)
      ensures Trusted(typing) && params !! typing.constants.Keys && Scoped(body, params) && Clean(typing, body) ==>
                (findings == [] && NoSkippedDivisions(body)) || Findings(typing, body, NO_GUARDS, Full) == [] ==>
                forall s: State, fuel: nat :: s.world == typing.world ==> Eval(body, s, fuel).0 != DivByZero
    {
      VisitExpr(body);
      if Trusted(typing) && params !! typing.constants.Keys && Scoped(body, params) && Clean(typing, body) {
        forall s: State, fuel: nat | s.world == typing.world &&
            ((findings == [] && NoSkippedDivisions(body)) || Findings(typing, body, NO_GUARDS, Full) == [])
          ensures Eval(body, s, fuel).0 != DivByZero
        {
          if findings == [] && NoSkippedDivisions(body) {
            SilenceIsSafe(typing, body, params, s, fuel);
          } else {
            FullSilenceIsSafe(typing, body, params, s, fuel);
          }
        }
      }
    }
  }
}
