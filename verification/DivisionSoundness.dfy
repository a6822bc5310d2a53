/** A body in which division-by-zero finds nothing never divides by zero, on any run. */
module DivisionSoundness {
  import opened Hir
  import opened HirScopes
  import opened DivisionGuards

  // ----- what the compiler guarantees about its own answers -----

  /** An expression of type `!` never completes with a value. */
  ghost predicate NeverTypesHold(t: Typing) {
    forall e, s, fuel: nat :: t.isNever(e) ==> !Eval(e, s, fuel).0.Val?
  }

  /** What the compiler evaluates changes nothing and means the same everywhere. */
  ghost predicate EvaluationHolds(t: Typing) {
    forall e, s: State, fuel: nat, s': State, fuel': nat ::
      t.isEvaluated(e) && s.world == s'.world == t.world ==> Eval(e, s, fuel) == (Eval(e, s', fuel').0, s)
  }

  // ----- constants -----

  /** What a constant evaluates to, from the values of the constant locals alone. */
  function ConstantValue(t: Typing, e: Expr): Outcome {
    Eval(e, State(t.constants, [], t.world), 0).0
  }

  /** The constant locals in scope have the values of their `let`s, and operators mean what they mean. */
  ghost predicate Agrees(t: Typing, scope: set<HirId>, s: State) {
    && s.world == t.world
    && forall id :: id in scope && id in t.constants ==> id in s.env && s.env[id] == t.constants[id]
  }

  /** A constant has its one value in every state that a body can be in. */
  lemma {:induction false} ConstantHasOneValue(t: Typing, e: Expr, scope: set<HirId>, s: State, fuel: nat)
    requires EvaluationHolds(t) && IsConstant(t, e) && Scoped(e, scope) && Agrees(t, scope, s)
    ensures Eval(e, s, fuel) == (ConstantValue(t, e), s)
    decreases e
  {
    var s0 := State(t.constants, [], t.world);
    if t.isEvaluated(e) {
      assert Eval(e, s, fuel) == (Eval(e, s0, 0).0, s);
    } else {
      match e
      case Field(base, _) => ConstantHasOneValue(t, base, scope, s, fuel);
      case Binary(_, _, l, r) =>
        ConstantHasOneValue(t, l, scope, s, fuel);
        ConstantHasOneValue(t, l, scope, s0, 0);
        ConstantHasOneValue(t, r, scope, s, fuel);
        ConstantHasOneValue(t, r, scope, s0, 0);
      case Cast(x, _) => ConstantHasOneValue(t, x, scope, s, fuel);
      case _ =>
    }
  }

  // ----- what a body must not contain -----

  /** A standard method, a shift `literal << k` whose literal is odd, a cast of a length that keeps 32 bits. */
  predicate KeepsNonzero(e: Expr) {
    && (PeelIntCast(e).MethodCall? ==> PeelIntCast(e).standard)
    && (e.Binary? && e.op == Shl && IsPositiveLiteral(e.lhs) ==> e.ty.Some? && e.lhs.intValue % 2 == 1)
    && (e.Cast? && LenCallReceiver(e.inner).Some? ==> e.target.Some? && e.target.value.bits >= 32)
  }

  /** A constant divisor is not zero; any other keeps what makes it non-zero. */
  predicate DivisorOk(t: Typing, divisor: Expr) {
    if IsConstant(t, divisor) then ConstantValue(t, divisor) != Val(VInt(0)) else KeepsNonzero(divisor)
  }

  predicate NotDivision(e: Expr) {
    !IsIntDivision(e)
  }

  predicate Unlabeled(e: Expr) {
    e.BlockExpr? ==> e.blockLabel.None?
  }

  predicate AnyStmt(stmt: Stmt) {
    true
  }

  ghost predicate NoDivisions(e: Expr) {
    All(e, NotDivision, AnyStmt)
  }

  ghost predicate NoLabels(e: Expr) {
    All(e, Unlabeled, AnyStmt)
  }

  /** A condition that guards something holds no division. */
  ghost predicate GuardsWithoutDivision(e: Expr) {
    e.If? && LocalsNonzeroOnTrue(e.cond) != [] ==> NoDivisions(e.cond)
  }

  ghost predicate NoSkippedDivisions(e: Expr) {
    All(e, GuardsWithoutDivision, AnyStmt)
  }

  /** An emptiness check calls the standard methods. */
  predicate StandardCheck(cond: Expr) {
    var c := PeelDropTemps(PeelDropTemps(cond));
    (c.MethodCall? ==> c.standard) && (c.Binary? && c.lhs.MethodCall? ==> c.lhs.standard)
  }

  /** Divisors and emptiness checks are what they are taken for; branches of an `if`, and a condition that guards
      something, are not labeled blocks. */
  ghost predicate ExprOk(t: Typing, e: Expr) {
    && (IsIntDivision(e) ==> DivisorOk(t, e.rhs))
    && (DivergingNonemptyGuard(t, e).Some? ==> StandardCheck(e.cond))
    && (e.If? ==>
          && Unlabeled(e.thenBranch)
          && (e.elseBranch.Some? ==> Unlabeled(e.elseBranch.value))
          && (LocalsNonzeroOnTrue(e.cond) != [] ==> NoLabels(e.cond)))
  }

  /** A `let` of a non-zero form keeps it non-zero; a `let` of a constant local binds the recorded value. */
  predicate StmtOk(t: Typing, stmt: Stmt) {
    match stmt
    case Let(Some(id), Some(init), _) =>
      && (ExprIsNonzeroValue(init) ==> DivisorOk(t, init))
      && (id in t.constants ==>
            IsConstant(t, init) && (ConstantValue(t, init).Val? ==> ConstantValue(t, init).v == t.constants[id]))
    case Let(Some(id), None, _) => id !in t.constants
    case _ => true
  }

  ghost function ExprsOk(t: Typing): Expr -> bool {
    e => ExprOk(t, e)
  }

  ghost function StmtsOk(t: Typing): Stmt -> bool {
    stmt => StmtOk(t, stmt)
  }

  // ----- the recognisers are right -----

  /** What is a multiple of 2^bits after a shift by less than that was even before. */
  lemma ShiftedMultipleIsEven(v: nat, k: nat, bits: nat, q: nat)
    requires k < bits && v * Pow2(k) == q * Pow2(bits)
    ensures v % 2 == 0
  {
    Pow2Split(k, bits - k);
    var a, h := Pow2(k), Pow2(bits - k - 1);
    assert Pow2(bits - k) == 2 * h;
    Regroup(q, a, h);
    CancelFactor(v, 2 * (q * h), a);
  }

  lemma Regroup(q: int, a: int, h: int)
    ensures q * (a * (2 * h)) == (2 * (q * h)) * a
  {
  }

  lemma OddStaysOdd(v: nat, k: nat, bits: nat)
    requires v % 2 == 1 && k < bits
    ensures (v * Pow2(k)) % Pow2(bits) != 0
  {
    if (v * Pow2(k)) % Pow2(bits) == 0 {
      ShiftedMultipleIsEven(v, k, bits, (v * Pow2(k)) / Pow2(bits));
    }
  }

  lemma CancelFactor(a: int, b: int, c: int)
    requires c > 0 && a * c == b * c
    ensures a == b
  {
  }

  lemma {:induction false} Pow2Split(a: nat, b: nat)
    ensures Pow2(a + b) == Pow2(a) * Pow2(b)
  {
    if a > 0 {
      Pow2Split(a - 1, b);
      Double(Pow2(a - 1), Pow2(b));
      assert Pow2(a + b) == 2 * Pow2(a - 1 + b);
      assert Pow2(a) == 2 * Pow2(a - 1);
    }
  }

  lemma Double(x: int, y: int)
    ensures 2 * (x * y) == (2 * x) * y
  {
  }

  /** An even literal shifted up to the top loses its last set bit. */
  lemma EvenShiftsOut(v: nat, bits: nat)
    requires v % 2 == 0 && bits > 0
    ensures (v * Pow2(bits - 1)) % Pow2(bits) == 0
  {
    var h := v / 2;
    assert v * Pow2(bits - 1) == h * (2 * Pow2(bits - 1)) == h * Pow2(bits);
    MultipleHasNoRemainder(h, Pow2(bits));
  }

  lemma AtLeastFactor(x: int, m: nat)
    requires x >= 1
    ensures x * m >= m
  {
  }

  lemma MultipleHasNoRemainder(q: nat, m: nat)
    requires m > 0
    ensures (q * m) % m == 0
  {
    var r, d := (q * m) % m, (q * m) / m;
    assert q * m == d * m + r;
    assert (q - d) * m == r;
    if q - d >= 1 {
      AtLeastFactor(q - d, m);
    } else if q - d <= -1 {
      assert (d - q) * m == -r;
      AtLeastFactor(d - q, m);
    }
  }

  /** `literal << k` is non-zero for every shift amount that does not panic exactly when the literal is
      odd; the recogniser accepts every positive literal. */
  lemma ShiftRecogniserIsExact(v: nat, ty: IntTy)
    requires ty.bits > 0
    ensures (forall k: nat :: k < ty.bits ==> ShiftLeft(ty, v, k) != Val(VInt(0))) <==> v % 2 == 1
  {
    if v % 2 == 1 {
      forall k: nat | k < ty.bits
        ensures ShiftLeft(ty, v, k) != Val(VInt(0))
      {
        OddStaysOdd(v, k, ty.bits);
      }
    } else {
      EvenShiftsOut(v, ty.bits);
      assert ShiftLeft(ty, v, ty.bits - 1) == Val(VInt(0));
    }
  }

  lemma {:induction false} Pow2Monotone(a: nat, b: nat)
    requires a <= b
    ensures Pow2(a) <= Pow2(b)
    decreases b - a
  {
    if a < b {
      Pow2Monotone(a, b - 1);
    }
  }

  lemma Pow2Of32()
    ensures Pow2(32) == 0x1_0000_0000
  {
    Pow2Split(16, 16);
    assert Pow2(16) == 0x1_0000 by {
      Pow2Split(8, 8);
      assert Pow2(8) == 256;
    }
  }

  /** A cast keeps every non-zero length non-zero exactly when it keeps at least 32 bits; the recogniser
      looks through every integer cast. */
  lemma LengthCastRecogniserIsExact(ty: IntTy)
    ensures (forall n: Length :: n > 0 ==> Wrap(n, ty) != 0) <==> ty.bits >= 32
  {
    Pow2Of32();
    if ty.bits >= 32 {
      forall n: Length | n > 0 ensures Wrap(n, ty) != 0 {
        LongCastKeepsLength(n, ty);
      }
    } else {
      Pow2Monotone(ty.bits, 31);
      assert Pow2(32) == 2 * Pow2(31);
      var n: Length := Pow2(ty.bits);
      assert Wrap(n, ty) == 0;
    }
  }

  lemma LongCastKeepsLength(n: Length, ty: IntTy)
    requires n > 0 && ty.bits >= 32
    ensures Wrap(n, ty) != 0
  {
    Pow2Of32();
    Pow2Monotone(32, ty.bits);
    assert n % Pow2(ty.bits) == n;
  }

  /** The forms accepted as non-zero are non-zero, if the methods are the standard ones and the literal is odd. */
  lemma NonzeroFormIsNonzero(e: Expr, s: State, fuel: nat)
    requires ExprIsNonzeroValue(e) && KeepsNonzero(e)
    ensures Eval(e, s, fuel).0 != Val(VInt(0))
  {
    if e.MethodCall? {
      var (o, s1) := Eval(e.receiver, s, fuel);
      var (vs, s2) := EvalArgs(e.args, s1, fuel);
      assert Eval(e.args[0], s1, fuel) == (Val(VInt(e.args[0].intValue)), s1);
      if o.Val? && vs.Vals? && !e.never {
        assert vs.vs[0] == VInt(e.args[0].intValue);
        assert Eval(e, s, fuel) == ApplyMethod(e.name, o.v, vs.vs, s2);
      }
    } else {
      var s1 := Eval(e.lhs, s, fuel).1;
      assert Eval(e.lhs, s, fuel) == (Val(VInt(e.lhs.intValue)), s);
      var (o2, s2) := Eval(e.rhs, s1, fuel);
      if o2.Val? && o2.v.VInt? && 0 <= o2.v.n < e.ty.value.bits {
        ShiftRecogniserIsExact(e.lhs.intValue, e.ty.value);
        OddStaysOdd(e.lhs.intValue, o2.v.n, e.ty.value.bits);
      }
    }
  }

  // ----- expressions without side effects -----

  /** They change nothing and mean the same wherever the locals in scope have the same values. */
  lemma {:induction false} PureStable(e: Expr, scope: set<HirId>, s: State, s': State, fuel: nat, fuel': nat)
    requires SideEffectFree(e) && Scoped(e, scope) && Keeps(scope, s, s') && Eval(e, s, fuel).0.Val?
    ensures Eval(e, s', fuel').0 == Eval(e, s, fuel).0
    ensures Eval(e, s, fuel).1 == s && Eval(e, s', fuel').1 == s'
    decreases e
  {
    match e
    case Field(base, _) => PureStable(base, scope, s, s', fuel, fuel');
    case Unary(_, _, x) => PureStable(x, scope, s, s', fuel, fuel');
    case Binary(_, _, l, r) =>
      PureStable(l, scope, s, s', fuel, fuel');
      if Eval(r, s, fuel).0.Val? {
        PureStable(r, scope, s, s', fuel, fuel');
      }
    case Cast(x, _) => PureStable(x, scope, s, s', fuel, fuel');
    case DropTemps(x) => PureStable(x, scope, s, s', fuel, fuel');
    case _ =>
  }

  lemma {:induction false} PureScopeGrows(e: Expr, scope: set<HirId>, wider: set<HirId>)
    requires SideEffectFree(e) && Scoped(e, scope) && scope <= wider
    ensures Scoped(e, wider)
  {
    match e
    case Field(base, _) => PureScopeGrows(base, scope, wider);
    case Unary(_, _, x) => PureScopeGrows(x, scope, wider);
    case Binary(_, _, l, r) =>
      PureScopeGrows(l, scope, wider);
      PureScopeGrows(r, scope, wider);
    case Cast(x, _) => PureScopeGrows(x, scope, wider);
    case DropTemps(x) => PureScopeGrows(x, scope, wider);
    case _ =>
  }

  // ----- guards that hold in a state -----

  ghost predicate Nonzero(id: HirId, s: State) {
    id in s.env && s.env[id] != VInt(0)
  }

  ghost predicate Nonempty(r: Expr, s: State) {
    Eval(r, s, 0).0.Val? && Eval(r, s, 0).0.v.VColl? && Eval(r, s, 0).0.v.len > 0
  }

  ghost predicate Holds(t: Typing, g: Guards, scope: set<HirId>, s: State) {
    && Agrees(t, scope, s)
    && g.locals <= scope
    && (forall id :: id in g.locals ==> Nonzero(id, s))
    && (forall r :: r in g.receivers && SideEffectFree(r) ==> Scoped(r, scope) && Nonempty(r, s))
  }

  lemma HoldsLater(t: Typing, g: Guards, scope: set<HirId>, s: State, s': State)
    requires Holds(t, g, scope, s) && Keeps(scope, s, s')
    ensures Holds(t, g, scope, s')
  {
    forall r | r in g.receivers && SideEffectFree(r)
      ensures Nonempty(r, s')
    {
      PureStable(r, scope, s, s', 0, 0);
    }
  }

  lemma HoldsWider(t: Typing, g: Guards, scope: set<HirId>, wider: set<HirId>, s: State)
    requires Holds(t, g, scope, s) && scope <= wider && Agrees(t, wider, s)
    ensures Holds(t, g, wider, s)
  {
    forall r | r in g.receivers && SideEffectFree(r)
      ensures Scoped(r, wider)
    {
      PureScopeGrows(r, scope, wider);
    }
  }

  /** A zero comparison that holds, or fails, says what it says about the local. */
  lemma {:induction false} ZeroComparisonMeaning(c: Expr, s: State, fuel: nat)
    requires ZeroComparison(c).Some? && Eval(c, s, fuel).0.Val?
    ensures Eval(c, s, fuel).0.v.VBool? && Eval(c, s, fuel).1 == s && ZeroComparison(c).value.0 in s.env
    ensures Eval(c, s, fuel).0.v.b != ZeroComparison(c).value.1 ==> Nonzero(ZeroComparison(c).value.0, s)
    decreases c
  {
    if c.Unary? {
      ZeroComparisonMeaning(c.operand, s, fuel);
    } else {
      var id := ZeroComparison(c).value.0;
      var s1 := Eval(c.lhs, s, fuel).1;
      assert s1 == s && Eval(c.rhs, s1, fuel).1 == s;
    }
  }

  lemma {:induction false} ZeroComparisonScoped(c: Expr, scope: set<HirId>)
    requires ZeroComparison(c).Some? && Scoped(c, scope)
    ensures ZeroComparison(c).value.0 in scope
    decreases c
  {
    if c.Unary? {
      ZeroComparisonScoped(c.operand, scope);
    }
  }

  /** When a condition holds, every local it is said to prove non-zero is non-zero. */
  lemma {:induction false} ProvenLocalsNonzero(cond: Expr, scope: set<HirId>, s: State, fuel: nat)
    requires Scoped(cond, scope) && NoLabels(cond) && Eval(cond, s, fuel).0 == Val(VBool(true))
    ensures forall id :: id in LocalsNonzeroOnTrue(cond) ==> id in scope && Nonzero(id, Eval(cond, s, fuel).1)
    decreases cond
  {
    var c := PeelDropTemps(cond);
    assert Eval(c, s, fuel) == Eval(cond, s, fuel) && Scoped(c, scope) && NoLabels(c);
    if c.BlockExpr? {
      if c.block.stmts == [] && c.block.tail.Some? {
        assert AllBlock(c.block, Unlabeled, AnyStmt) && Unlabeled(c);
        assert NoLabels(c.block.tail.value) && ScopedBlock(c.block, scope);
        assert EvalStmts(c.block.stmts, s, fuel) == (Val(VUnit), s);
        assert EvalBlock(c.block, s, fuel) == Eval(c.block.tail.value, s, fuel);
        ProvenLocalsNonzero(c.block.tail.value, scope, s, fuel);
      }
    } else if ZeroComparison(c).Some? {
      ZeroComparisonMeaning(c, s, fuel);
      ZeroComparisonScoped(c, scope);
    } else if c.Binary? && c.op == And {
      ProvenLocalsNonzero(c.lhs, scope, s, fuel);
      var s1 := Eval(c.lhs, s, fuel).1;
      ProvenLocalsNonzero(c.rhs, scope, s1, fuel);
      FrameExpr(c.rhs, scope, s1, fuel);
    } else if c.If? && c.elseBranch.Some? && IsFalseLiteral(c.elseBranch.value) {
      var s1 := Eval(c.cond, s, fuel).1;
      assert NoLabels(c.cond) && NoLabels(c.thenBranch);
      FalseLiteralIsFalse(c.elseBranch.value, s1, fuel);
      ProvenLocalsNonzero(c.cond, scope, s, fuel);
      ProvenLocalsNonzero(c.thenBranch, scope, s1, fuel);
      FrameExpr(c.thenBranch, scope, s1, fuel);
    }
  }

  lemma FalseLiteralIsFalse(e: Expr, s: State, fuel: nat)
    requires IsFalseLiteral(e)
    ensures Eval(e, s, fuel).0 == Val(VBool(false))
  {
    var x := PeelDropTemps(e);
    assert Eval(e, s, fuel) == Eval(x, s, fuel);
    if x.BlockExpr? && x.block.stmts == [] && x.block.tail.Some? {
      assert EvalStmts(x.block.stmts, s, fuel) == (Val(VUnit), s);
      var y := x.block.tail.value;
      assert EvalBlock(x.block, s, fuel) == Eval(y, s, fuel);
      assert Eval(y, s, fuel) == Eval(PeelDropTemps(y), s, fuel);
    }
  }
}
