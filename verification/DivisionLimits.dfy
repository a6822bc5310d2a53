/** Where the silence of division-by-zero is worth less than its comments say, with the inputs that show it and
    the exact conditions. */
module DivisionLimits {
  import opened Options
  import opened Hir
  import opened HirScopes
  import opened DivisionGuards
  import opened DivisionSoundness
  import opened DivisionWalks
  import opened DivisionByZero

  // ----- conditions that are not walked -----

  const NOTHING := BlockExpr(None, Block([], None))

  function Quotient(ty: IntTy, divisor: HirId): Expr {
    Binary(Div, Some(ty), Int(1), Local(divisor))
  }

  /** `if 1 / a == 1 && b != 0 {}`. */
  function DividingGuard(ty: IntTy): Expr {
    If(Binary(And, None, Binary(Eq, Some(ty), Quotient(ty, 0), Int(1)), Binary(Ne, Some(ty), Local(1), Int(0))),
       NOTHING, None)
  }

  lemma NothingIsFoundIn(t: Typing, g: Guards, w: Walk)
    ensures Findings(t, NOTHING, g, w) == []
  {
    assert FindingsInBlock(t, NOTHING.block, g, w) == [];
    assert FindingsBelow(t, NOTHING, g, w) == [];
  }

  lemma LeafScoped(e: Expr, scope: set<HirId>)
    requires e.Int? || e.Bool? || (e.Local? && e.id in scope)
    ensures Scoped(e, scope)
  {
  }

  lemma DividingGuardIsScoped(ty: IntTy)
    ensures Scoped(DividingGuard(ty), {0, 1})
  {
    var e, scope: set<HirId> := DividingGuard(ty), {0, 1};
    var left, right := e.cond.lhs, e.cond.rhs;
    LeafScoped(Int(0), scope);
    LeafScoped(Int(1), scope);
    LeafScoped(Local(0), scope);
    LeafScoped(Local(1), scope);
    assert Scoped(left.lhs, scope);
    assert Scoped(left, scope) && Scoped(right, scope);
    assert ScopedBlock(NOTHING.block, scope);
  }

  lemma DividingGuardIsSilent(t: Typing, ty: IntTy)
    ensures Findings(t, DividingGuard(ty), NO_GUARDS, Skipping) == []
  {
    var e := DividingGuard(ty);
    assert LocalsNonzeroOnTrue(e.cond.rhs) == [1];
    NothingIsFoundIn(t, Proven(NO_GUARDS, e.cond), Skipping);
  }

  /** A division inside a condition that guards something else is missed: the condition is not walked. */
  lemma SkippedConditionIsMissed(t: Typing, ty: IntTy)
    ensures Scoped(DividingGuard(ty), {0, 1})
    ensures Findings(t, DividingGuard(ty), NO_GUARDS, Skipping) == []
    ensures Eval(DividingGuard(ty), State(map[0 := VInt(0), 1 := VInt(5)], [], t.world), 0).0 == DivByZero
  {
    DividingGuardIsScoped(ty);
    DividingGuardIsSilent(t, ty);
    var e := DividingGuard(ty);
    ConditionDivides(ty, e.cond.lhs, e, State(map[0 := VInt(0), 1 := VInt(5)], [], t.world));
  }

  /** What stops the left operand stops the operation. */
  lemma LeftOperandStops(e: Expr, s: State, fuel: nat)
    requires e.Binary? && !Eval(e.lhs, s, fuel).0.Val?
    ensures Eval(e, s, fuel).0 == Eval(e.lhs, s, fuel).0
  {
  }

  lemma ConditionDivides(ty: IntTy, left: Expr, e: Expr, s: State)
    requires left == Binary(Eq, Some(ty), Quotient(ty, 0), Int(1))
    requires e.If? && e.cond.Binary? && e.cond.lhs == left
    requires 0 in s.env && s.env[0] == VInt(0)
    ensures Eval(e, s, 0).0 == DivByZero
  {
    OneOverZero(ty, 0, s);
    LeftOperandStops(left, s, 0);
    LeftOperandStops(e.cond, s, 0);
  }

  lemma OneOverZero(ty: IntTy, id: HirId, s: State)
    requires id in s.env && s.env[id] == VInt(0)
    ensures Eval(Quotient(ty, id), s, 0).0 == DivByZero
  {
    assert Eval(Int(1), s, 0) == (Val(VInt(1)), s) && Eval(Local(id), s, 0) == (Val(VInt(0)), s);
  }

  /** And the condition is all that is missed: an `if` that guards something, silent and clean but for its
      condition, divides by zero exactly when the condition does. */
  lemma OnlyTheConditionIsMissed(t: Typing, e: Expr, g: Guards, scope: set<HirId>, s: State, fuel: nat)
    requires Trusted(t) && Scoped(e, scope) && e.If? && LocalsNonzeroOnTrue(e.cond) != [] && NoLabels(e.cond)
    requires Clean(t, e.thenBranch) && NoSkippedDivisions(e.thenBranch)
    requires e.elseBranch.Some? ==> Clean(t, e.elseBranch.value) && NoSkippedDivisions(e.elseBranch.value)
    requires Holds(t, g, scope, s) && Findings(t, e, g, Skipping) == []
    ensures Eval(e, s, fuel).0 == DivByZero <==> Eval(e.cond, s, fuel).0 == DivByZero
  {
    FrameExpr(e.cond, scope, s, fuel);
    var (o, s1) := Eval(e.cond, s, fuel);
    HoldsLater(t, g, scope, s, s1);
    if o == Val(VBool(true)) {
      ProvenHolds(t, e.cond, g, scope, s, fuel);
      WalksAgree(t, e.thenBranch, Proven(g, e.cond));
      GuardedExpr(t, e.thenBranch, Proven(g, e.cond), scope, s1, fuel);
    } else if o == Val(VBool(false)) && e.elseBranch.Some? {
      WalksAgree(t, e.elseBranch.value, g);
      GuardedExpr(t, e.elseBranch.value, g, scope, s1, fuel);
    }
  }

  // ----- labeled conditions -----

  /** `'a: { (break 'a true) && d != 0 }`. */
  function JumpingCondition(ty: IntTy): Expr {
    BlockExpr(Some(9), Block([], Some(Jump(ty))))
  }

  function Jump(ty: IntTy): Expr {
    Binary(And, None, Break(9, Some(Bool(true))), Binary(Ne, Some(ty), Local(0), Int(0)))
  }

  /** `if 'a: { (break 'a true) && d != 0 } { 1 / d }`. */
  function JumpingGuard(ty: IntTy): Expr {
    If(JumpingCondition(ty), BlockExpr(None, Block([], Some(Quotient(ty, 0)))), None)
  }

  lemma TailIsScoped(name: Option<HirId>, tail: Expr, scope: set<HirId>)
    requires Scoped(tail, scope)
    ensures Scoped(BlockExpr(name, Block([], Some(tail))), scope)
  {
    assert ScopedBlock(Block([], Some(tail)), scope);
  }

  lemma JumpingGuardIsScoped(ty: IntTy)
    ensures Scoped(JumpingGuard(ty), {0})
  {
    LeafScoped(Local(0), {0});
    LeafScoped(Int(0), {0});
    LeafScoped(Int(1), {0});
    LeafScoped(Bool(true), {0});
    assert Scoped(Jump(ty).lhs, {0}) && Scoped(Jump(ty).rhs, {0});
    assert Scoped(Jump(ty), {0}) && Scoped(Quotient(ty, 0), {0});
    TailIsScoped(Some(9), Jump(ty), {0});
    TailIsScoped(None, Quotient(ty, 0), {0});
  }

  lemma JumpingGuardIsSilent(t: Typing, ty: IntTy)
    ensures Findings(t, JumpingGuard(ty), NO_GUARDS, Skipping) == []
  {
    var e := JumpingGuard(ty);
    assert LocalsNonzeroOnTrue(Jump(ty).rhs) == [0];
    assert 0 in LocalsNonzeroOnTrue(e.cond);
    var g := Proven(NO_GUARDS, e.cond);
    assert 0 in g.locals;
    QuotientIsSilent(t, ty, 0, g, Skipping);
    assert FindingsInStmts(t, [], g, Skipping) == [] && GuardsAfter(t, [], g) == g;
    assert FindingsInBlock(t, e.thenBranch.block, g, Skipping) == [];
    assert FindingsBelow(t, e.thenBranch, g, Skipping) == [];
  }

  /** A division by a local that is guarded, or a constant, is not reported. */
  lemma QuotientIsSilent(t: Typing, ty: IntTy, id: HirId, g: Guards, w: Walk)
    requires id in g.locals || IsConstant(t, Local(id))
    ensures Findings(t, Quotient(ty, id), g, w) == []
  {
    var q := Quotient(ty, id);
    assert !DivisorIsUnsafe(t, q.rhs, g);
    assert Findings(t, Int(1), g, w) == FindingsBelow(t, Int(1), g, w) == [];
    assert Findings(t, Local(id), g, w) == FindingsBelow(t, Local(id), g, w) == [];
  }

  lemma JumpingGuardDivides(ty: IntTy, s: State)
    requires 0 in s.env && s.env[0] == VInt(0)
    ensures Eval(JumpingGuard(ty), s, 0).0 == DivByZero
  {
    var e := JumpingGuard(ty);
    assert Eval(Bool(true), s, 0) == (Val(VBool(true)), s);
    assert Eval(Jump(ty).lhs, s, 0) == (Brk(9, VBool(true)), s);
    assert Eval(Jump(ty), s, 0) == (Brk(9, VBool(true)), s);
    assert EvalStmts([], s, 0) == (Val(VUnit), s);
    assert EvalBlock(e.cond.block, s, 0) == (Brk(9, VBool(true)), s);
    assert Eval(e.cond, s, 0) == (Val(VBool(true)), s);
    OneOverZero(ty, 0, s);
    assert EvalBlock(e.thenBranch.block, s, 0).0 == DivByZero;
    assert Eval(e.thenBranch, s, 0).0 == DivByZero;
  }

  /** A condition that can be left by a labeled `break` proves nothing, but is taken to prove its conjuncts. */
  lemma LabeledConditionIsMissed(t: Typing, ty: IntTy)
    ensures Scoped(JumpingGuard(ty), {0})
    ensures Findings(t, JumpingGuard(ty), NO_GUARDS, Skipping) == []
    ensures Eval(JumpingGuard(ty), State(map[0 := VInt(0)], [], t.world), 0).0 == DivByZero
  {
    JumpingGuardIsScoped(ty);
    JumpingGuardIsSilent(t, ty);
    JumpingGuardDivides(ty, State(map[0 := VInt(0)], [], t.world));
  }

  // ----- methods known by name only -----

  /** `max` and `clamp` are known by their names. A form that is accepted, and whose receiver and arguments complete
      in some state, is non-zero on every run exactly when the method is the standard one. */
  lemma OnlyStandardMethodsAreNonzero(e: Expr, s: State, fuel: nat, receiver: Value, args: seq<Value>)
    requires e.MethodCall? && !e.never && ExprIsNonzeroValue(e)
    requires Eval(e.receiver, s, fuel) == (Val(receiver), s) && EvalArgs(e.args, s, fuel) == (Vals(args), s)
    requires s.tape != [] && s.tape[0] == VInt(0)
    ensures (forall s', fuel': nat :: Eval(e, s', fuel').0 != Val(VInt(0))) <==> e.standard
  {
    if e.standard {
      forall s', fuel': nat
        ensures Eval(e, s', fuel').0 != Val(VInt(0))
      {
        NonzeroFormIsNonzero(e, s', fuel');
      }
    } else {
      assert Eval(e, s, fuel) == Next(s);
      assert Eval(e, s, fuel).0 == Val(VInt(0));
    }
  }

  /** `x / w.max(1)`, where `w` has a method `max` of its own. */
  function OwnMax(ty: IntTy): Expr {
    Binary(Div, Some(ty), Local(0), MethodCall(Max, false, Local(1), [Int(1)], false))
  }

  lemma OwnMaxIsSilent(t: Typing, ty: IntTy, w: Walk)
    ensures Findings(t, OwnMax(ty), NO_GUARDS, w) == []
  {
    var e := OwnMax(ty);
    assert !DivisorIsUnsafe(t, e.rhs, NO_GUARDS);
    assert Findings(t, e.lhs, NO_GUARDS, w) == FindingsBelow(t, e.lhs, NO_GUARDS, w) == [];
    assert Findings(t, Local(1), NO_GUARDS, w) == FindingsBelow(t, Local(1), NO_GUARDS, w) == [];
    assert Findings(t, Int(1), NO_GUARDS, w) == FindingsBelow(t, Int(1), NO_GUARDS, w) == [];
    assert [Int(1)][1..] == [];
    assert FindingsInArgs(t, [Int(1)], NO_GUARDS, w) == [];
    assert Findings(t, e.rhs, NO_GUARDS, w) == FindingsBelow(t, e.rhs, NO_GUARDS, w) == [];
  }

  lemma OwnMaxDivides(ty: IntTy, s: State)
    requires 0 in s.env && s.env[0].VInt? && 1 in s.env && s.tape != [] && s.tape[0] == VInt(0)
    ensures Eval(OwnMax(ty), s, 0).0 == DivByZero
  {
    var e := OwnMax(ty);
    assert [Int(1)][1..] == [];
    assert Eval(Int(1), s, 0) == (Val(VInt(1)), s);
    assert EvalArgs([Int(1)][1..], s, 0) == (Vals([]), s);
    assert EvalArgs([Int(1)], s, 0) == (Vals([VInt(1)] + []), s);
    assert Eval(e.rhs, s, 0).0 == Val(VInt(0));
  }

  /** The method `max` of another type may return zero, and the division by it is not reported. */
  lemma OwnMaxIsMissed(t: Typing, ty: IntTy, w: Walk)
    ensures Scoped(OwnMax(ty), {0, 1})
    ensures Findings(t, OwnMax(ty), NO_GUARDS, w) == []
    ensures Eval(OwnMax(ty), State(map[0 := VInt(5), 1 := VRec(map[])], [VInt(0)], t.world), 0).0 == DivByZero
  {
    var e := OwnMax(ty);
    LeafScoped(Local(0), {0, 1});
    LeafScoped(Local(1), {0, 1});
    LeafScoped(Int(1), {0, 1});
    assert [Int(1)][1..] == [];
    assert ScopedArgs([Int(1)][1..], {0, 1});
    assert ScopedArgs([Int(1)], {0, 1});
    assert Scoped(e.rhs, {0, 1});
    OwnMaxIsSilent(t, ty, w);
    OwnMaxDivides(ty, State(map[0 := VInt(5), 1 := VRec(map[])], [VInt(0)], t.world));
  }

  // ----- constants -----

  /** A constant divisor that is no literal zero is never reported. Where the dividend is clean and silent, the
      division divides by zero exactly when the dividend completes and the constant is zero (or divides by zero
      itself). */
  lemma ConstantDivisorIsTrusted(t: Typing, e: Expr, g: Guards, scope: set<HirId>, s: State, fuel: nat)
    requires Trusted(t) && Scoped(e, scope) && Holds(t, g, scope, s)
    requires IsIntDivision(e) && IsConstant(t, e.rhs) && !IsZeroLiteral(e.rhs)
    requires Clean(t, e.lhs) && Findings(t, e.lhs, g, Full) == []
    ensures !DivisorIsUnsafe(t, e.rhs, g)
    ensures var dividend := Eval(e.lhs, s, fuel).0;
            Eval(e, s, fuel).0 == DivByZero <==>
              dividend.Val? &&
              (ConstantValue(t, e.rhs) == DivByZero || (dividend.v.VInt? && ConstantValue(t, e.rhs) == Val(VInt(0))))
  {
    GuardedExpr(t, e.lhs, g, scope, s, fuel);
    FrameExpr(e.lhs, scope, s, fuel);
    var s1 := Eval(e.lhs, s, fuel).1;
    HoldsLater(t, g, scope, s, s1);
    ConstantHasOneValue(t, e.rhs, scope, s1, fuel);
  }

  /** `{ let d = 0; 1 / d }`. */
  function LetBoundZero(ty: IntTy): Expr {
    BlockExpr(None, Block([Let(Some(0), Some(Int(0)), None)], Some(Quotient(ty, 0))))
  }

  /** A local bound to the literal zero is taken for a constant too, and neither walk reports a division by it. */
  lemma LetBoundZeroIsMissed(t: Typing, ty: IntTy, w: Walk, tape: seq<Value>)
    requires t.constants == map[0 := VInt(0)]
    ensures Scoped(LetBoundZero(ty), {}) && StmtOk(t, LetBoundZero(ty).block.stmts[0])
    ensures Findings(t, LetBoundZero(ty), NO_GUARDS, w) == []
    ensures Eval(LetBoundZero(ty), State(map[], tape, t.world), 0).0 == DivByZero
  {
    var e, binding := LetBoundZero(ty), Let(Some(0), Some(Int(0)), None);
    var stmts := e.block.stmts;
    assert stmts[0] == binding && stmts[1..] == [];
    assert Scoped(Int(0), {}) && ScopedStmt(binding, {});
    assert Bound(binding) == {0} && ScopeAfter(stmts[1..], {} + {0}) == {0};
    assert ScopedStmts(stmts[1..], {0});
    assert Scoped(Int(1), {0}) && Scoped(Local(0), {0});
    assert Scoped(Quotient(ty, 0), {0});
    var s, s1 := State(map[], tape, t.world), State(map[0 := VInt(0)], tape, t.world);
    assert Eval(Int(0), s, 0) == (Val(VInt(0)), s);
    assert EvalStmt(binding, s, 0) == (Val(VUnit), s1);
    assert EvalStmts(stmts[1..], s1, 0) == (Val(VUnit), s1);
    assert EvalStmts(stmts, s, 0) == (Val(VUnit), s1);
    OneOverZero(ty, 0, s1);
    assert EvalBlock(e.block, s, 0).0 == DivByZero;
    LetBoundZeroIsSilent(t, ty, w);
  }

  lemma LetBoundZeroIsSilent(t: Typing, ty: IntTy, w: Walk)
    requires t.constants == map[0 := VInt(0)]
    ensures Findings(t, LetBoundZero(ty), NO_GUARDS, w) == []
  {
    var e, binding := LetBoundZero(ty), Let(Some(0), Some(Int(0)), None);
    var stmts := e.block.stmts;
    assert stmts[0] == binding && stmts[1..] == [];
    var g := GuardsAfter(t, stmts, NO_GUARDS);
    assert Findings(t, Int(0), NO_GUARDS, w) == FindingsBelow(t, Int(0), NO_GUARDS, w) == [];
    assert FindingsInStmt(t, binding, NO_GUARDS, w) == [];
    assert FindingsInStmts(t, stmts[1..], GuardsAfterStmt(t, binding, NO_GUARDS), w) == [];
    assert FindingsInStmts(t, stmts, NO_GUARDS, w) == [];
    QuotientIsSilent(t, ty, 0, g, w);
    assert FindingsInBlock(t, e.block, NO_GUARDS, w) == [];
  }
}
