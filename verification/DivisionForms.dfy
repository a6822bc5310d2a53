/** The forms that division-by-zero recognises, built from their parts: each recogniser accepts exactly these. */
module DivisionForms {
  import opened Options
  import opened Hir
  import opened HirParts
  import opened DivisionGuards

  // ----- branches that do not fall through -----

  predicate IsJump(t: Typing, e: Expr) {
    e.Ret? || e.Break? || e.Continue? || t.isNever(e)
  }

  /** A jump or an expression of type `!`, alone, or at the end of a block with or without a semicolon. */
  ghost predicate NeverFallsThrough(t: Typing, branch: Expr) {
    exists jump :: IsJump(t, jump) &&
      (|| (branch == jump && !jump.BlockExpr?)
       || exists name, stmts :: branch == BlockExpr(name, Block(stmts, Some(jump))) ||
                                branch == BlockExpr(name, Block(stmts + [ExprStmt(jump)], None)))
  }

  lemma BranchIsRecognised(t: Typing, branch: Expr)
    ensures NeverFallsThrough(t, branch) <==> BranchDiverges(t, branch)
  {
    if BranchDiverges(t, branch) {
      if branch.BlockExpr? {
        var stmts := branch.block.stmts;
        if branch.block.tail.Some? {
          assert branch == BlockExpr(branch.blockLabel, Block(stmts, Some(branch.block.tail.value)));
        } else {
          var front, last := stmts[..|stmts| - 1], stmts[|stmts| - 1];
          assert branch == BlockExpr(branch.blockLabel, Block(front + [ExprStmt(last.expr)], None));
        }
      } else {
        assert IsJump(t, branch);
      }
    }
  }

  // ----- comparisons with zero -----

  /** `== 0` or `!= 0`, with the zero on either side, under some negations. */
  datatype ZeroTest = ZeroTest(nots: seq<Option<IntTy>>, equals: bool, ty: Option<IntTy>, zeroFirst: bool)

  function TestOf(test: ZeroTest, id: HirId): Expr
    decreases |test.nots|
  {
    if test.nots != [] then Unary(Not, test.nots[0], TestOf(test.(nots := test.nots[1..]), id))
    else
      var op := if test.equals then Eq else Ne;
      if test.zeroFirst then Binary(op, test.ty, Int(0), Local(id)) else Binary(op, test.ty, Local(id), Int(0))
  }

  /** Whether the test holds when the local is zero. */
  predicate SaysZero(test: ZeroTest) {
    test.equals == (|test.nots| % 2 == 0)
  }

  lemma {:induction false} TestIsRecognised(test: ZeroTest, id: HirId)
    ensures ZeroComparison(TestOf(test, id)) == Some((id, SaysZero(test)))
    decreases |test.nots|
  {
    if test.nots != [] {
      TestIsRecognised(test.(nots := test.nots[1..]), id);
    }
  }

  lemma {:induction false} RecognisedIsTest(c: Expr) returns (test: ZeroTest)
    requires ZeroComparison(c).Some?
    ensures c == TestOf(test, ZeroComparison(c).value.0)
    decreases c
  {
    if c.Unary? {
      var inner := RecognisedIsTest(c.operand);
      test := inner.(nots := [c.operandTy] + inner.nots);
      assert test.nots[1..] == inner.nots;
      assert test.(nots := test.nots[1..]) == inner;
    } else {
      test := ZeroTest([], c.op == Eq, c.ty, !IsZeroLiteral(c.rhs));
    }
  }

  /** A comparison of a local with zero is recognised exactly in these forms, and for what it says. */
  lemma ZeroComparisonForms(c: Expr, id: HirId, zero: bool)
    ensures ZeroComparison(c) == Some((id, zero)) <==> exists test :: c == TestOf(test, id) && zero == SaysZero(test)
  {
    if ZeroComparison(c) == Some((id, zero)) {
      var test := RecognisedIsTest(c);
      TestIsRecognised(test, id);
    }
    if test :| c == TestOf(test, id) && zero == SaysZero(test) {
      TestIsRecognised(test, id);
    }
  }

  function Temps(wrapped: bool, e: Expr): Expr {
    if wrapped then DropTemps(e) else e
  }

  /** An `if` that compares the local with zero and does not fall through where it is zero. */
  ghost predicate IsZeroCheck(t: Typing, e: Expr, id: HirId) {
    exists test, temps :: e.If? && e.cond == Temps(temps, TestOf(test, id)) && ZeroBranchLeaves(t, e, test)
  }

  ghost predicate ZeroBranchLeaves(t: Typing, e: Expr, test: ZeroTest)
    requires e.If?
  {
    if SaysZero(test) then NeverFallsThrough(t, e.thenBranch)
    else e.elseBranch.Some? && NeverFallsThrough(t, e.elseBranch.value)
  }

  lemma TestIsBare(test: ZeroTest, id: HirId)
    ensures !TestOf(test, id).DropTemps? && !TestOf(test, id).BlockExpr?
  {
  }

  lemma ZeroBranchIsRecognised(t: Typing, e: Expr, test: ZeroTest, id: HirId)
    requires e.If? && ZeroComparison(PeelDropTemps(e.cond)) == Some((id, SaysZero(test)))
    ensures ZeroBranchLeaves(t, e, test) <==> DivergingZeroGuard(t, e) == Some(id)
  {
    BranchIsRecognised(t, e.thenBranch);
    if e.elseBranch.Some? {
      BranchIsRecognised(t, e.elseBranch.value);
    }
  }

  lemma ZeroCheckForms(t: Typing, e: Expr, id: HirId)
    ensures DivergingZeroGuard(t, e) == Some(id) <==> IsZeroCheck(t, e, id)
  {
    if DivergingZeroGuard(t, e) == Some(id) {
      var test := RecognisedIsTest(PeelDropTemps(e.cond));
      TestIsRecognised(test, id);
      ZeroBranchIsRecognised(t, e, test, id);
      assert e.cond == Temps(e.cond.DropTemps?, TestOf(test, id));
    }
    if IsZeroCheck(t, e, id) {
      var test, temps :| e.If? && e.cond == Temps(temps, TestOf(test, id)) && ZeroBranchLeaves(t, e, test);
      TestIsRecognised(test, id);
      TestIsBare(test, id);
      ZeroBranchIsRecognised(t, e, test, id);
    }
  }

  // ----- emptiness checks -----

  predicate IsSimple(e: Expr) {
    || e.Int? || e.Bool? || e.OtherLit? || e.Local? || e.Const?
    || e.Field? || e.Unary? || e.Binary? || e.Cast? || e.DropTemps?
  }

  /** Literals, constants, locals, fields, operators, casts, and nothing else. */
  ghost predicate OnlySimple(e: Expr) {
    forall path :: IsPartPath(path, e) ==> IsSimple(path[|path| - 1])
  }

  lemma {:induction false} SimpleIsRecognised(e: Expr)
    requires OnlySimple(e)
    ensures SideEffectFree(e)
    decreases e
  {
    assert IsPartPath([e], e);
    assert IsSimple(e);
    forall part | IsPart(e, part)
      ensures SideEffectFree(part)
    {
      forall path | IsPartPath(path, part)
        ensures IsSimple(path[|path| - 1])
      {
        PathBefore(path, part, e);
        assert ([e] + path)[|[e] + path| - 1] == path[|path| - 1];
      }
      PartIsSmaller(e, part);
      SimpleIsRecognised(part);
    }
    SimpleParts(e);
  }

  lemma SimpleParts(e: Expr)
    requires IsSimple(e) && forall part :: IsPart(e, part) ==> SideEffectFree(part)
    ensures SideEffectFree(e)
  {
    match e
    case Field(base, _) => assert IsPart(e, base);
    case Unary(_, _, x) => assert IsPart(e, x);
    case Binary(_, _, l, r) => assert IsPart(e, l) && IsPart(e, r);
    case Cast(x, _) => assert IsPart(e, x);
    case DropTemps(x) => assert IsPart(e, x);
    case _ =>
  }

  lemma {:induction false} RecognisedIsSimple(e: Expr, path: seq<Expr>)
    requires SideEffectFree(e) && IsPartPath(path, e)
    ensures IsSimple(path[|path| - 1])
    decreases |path|
  {
    if |path| > 1 {
      PathTail(path, e);
      PartIsFree(e, path[1]);
      RecognisedIsSimple(path[1], path[1..]);
    }
  }

  lemma PartIsFree(e: Expr, part: Expr)
    requires SideEffectFree(e) && IsPart(e, part)
    ensures SideEffectFree(part)
  {
  }

  lemma SimpleForms(e: Expr)
    ensures SideEffectFree(e) <==> OnlySimple(e)
  {
    if SideEffectFree(e) {
      forall path | IsPartPath(path, e) ensures IsSimple(path[|path| - 1]) {
        RecognisedIsSimple(e, path);
      }
    }
    if OnlySimple(e) {
      SimpleIsRecognised(e);
    }
  }

  /** `r.is_empty()`, or `r.len()` below, or not above, a positive literal. */
  datatype Emptiness = IsEmptyCall | LenBelow(op: BinOp, ty: Option<IntTy>, bound: nat)

  function EmptinessOf(kind: Emptiness, standard: bool, r: Expr, never: bool): Expr {
    match kind
    case IsEmptyCall => MethodCall(IsEmpty, standard, r, [], never)
    case LenBelow(op, ty, bound) => Binary(op, ty, MethodCall(Len, standard, r, [], never), Int(bound))
  }

  predicate KindOk(kind: Emptiness) {
    kind.LenBelow? ==> (kind.op == Lt || kind.op == Le) && kind.bound >= 1
  }

  /** `r.len()`, possibly cast. */
  function LengthOf(r: Expr, standard: bool, never: bool, cast: Option<Option<IntTy>>): Expr {
    var len := MethodCall(Len, standard, r, [], never);
    if cast.Some? then Cast(len, cast.value) else len
  }

  /** An `if` that checks the collection for emptiness and does not fall through where it is empty. */
  ghost predicate IsEmptinessCheck(t: Typing, e: Expr, r: Expr) {
    e.If? && NeverFallsThrough(t, e.thenBranch) && ChecksEmptiness(e.cond, r)
  }

  ghost predicate ChecksEmptiness(cond: Expr, r: Expr) {
    exists kind, standard, never, outer, inner :: KindOk(kind) &&
        cond == CheckOf(kind, standard, r, never, outer, inner)
  }

  function CheckOf(kind: Emptiness, standard: bool, r: Expr, never: bool, outer: bool, inner: bool): Expr {
    Temps(outer, Temps(inner, EmptinessOf(kind, standard, r, never)))
  }

  lemma EmptinessIsRecognised(kind: Emptiness, standard: bool, r: Expr, never: bool, outer: bool, inner: bool)
    requires KindOk(kind)
    ensures var cond := PeelDropTemps(CheckOf(kind, standard, r, never, outer, inner));
            ZeroComparison(cond).None? && NonemptyGuardReceiver(cond) == Some(r)
  {
    var check := EmptinessOf(kind, standard, r, never);
    assert ZeroComparison(check).None? && ZeroComparison(DropTemps(check)).None?;
    assert NonemptyGuardReceiver(check) == Some(r) && NonemptyGuardReceiver(DropTemps(check)) == Some(r);
  }

  lemma RecognisedIsEmptiness(c: Expr) returns (kind: Emptiness, standard: bool, never: bool)
    requires !c.DropTemps? && NonemptyGuardReceiver(c).Some?
    ensures KindOk(kind) && c == EmptinessOf(kind, standard, NonemptyGuardReceiver(c).value, never)
  {
    if c.MethodCall? {
      kind, standard, never := IsEmptyCall, c.standard, c.never;
    } else {
      kind, standard, never := LenBelow(c.op, c.ty, c.rhs.intValue), c.lhs.standard, c.lhs.never;
    }
  }

  lemma EmptinessForms(cond: Expr, r: Expr)
    ensures NonemptyGuardReceiver(PeelDropTemps(cond)) == Some(r) <==> ChecksEmptiness(cond, r)
    ensures ChecksEmptiness(cond, r) ==> ZeroComparison(PeelDropTemps(cond)).None?
  {
    if NonemptyGuardReceiver(PeelDropTemps(cond)) == Some(r) {
      var once := PeelDropTemps(cond);
      var c := PeelDropTemps(once);
      assert !c.DropTemps?;
      var kind, standard, never := RecognisedIsEmptiness(c);
      assert cond == CheckOf(kind, standard, r, never, cond.DropTemps?, once.DropTemps?);
    }
    if kind, standard, never, outer, inner :|
      KindOk(kind) && cond == CheckOf(kind, standard, r, never, outer, inner) {
      EmptinessIsRecognised(kind, standard, r, never, outer, inner);
    }
  }

  lemma EmptinessCheckForms(t: Typing, e: Expr, r: Expr)
    ensures DivergingNonemptyGuard(t, e) == Some(r) <==> IsEmptinessCheck(t, e, r)
    ensures IsEmptinessCheck(t, e, r) ==> DivergingZeroGuard(t, e).None?
  {
    if e.If? {
      BranchIsRecognised(t, e.thenBranch);
      EmptinessForms(e.cond, r);
    }
  }

  // ----- forms that are not zero -----

  /** `x.max(k)` or `x.clamp(k, ..)` for a positive literal `k`. */
  ghost predicate HasPositiveFloor(e: Expr) {
    exists k: nat, x, more, standard, never :: k >= 1 &&
      (|| e == MethodCall(Max, standard, x, [Int(k)] + more, never)
       || e == MethodCall(Clamp, standard, x, [Int(k)] + more, never))
  }

  /** `k << x` for a positive literal `k`. */
  ghost predicate IsShiftedLiteral(e: Expr) {
    exists k: nat, ty, x :: k >= 1 && e == Binary(Shl, ty, Int(k), x)
  }

  ghost predicate IsNonzeroForm(e: Expr) {
    HasPositiveFloor(e) || IsShiftedLiteral(e)
  }

  lemma FormIsRecognised(e: Expr)
    ensures IsNonzeroForm(e) <==> ExprIsNonzeroValue(e)
  {
    if ExprIsNonzeroValue(e) {
      if e.MethodCall? {
        assert e.args == [Int(e.args[0].intValue)] + e.args[1..];
      } else {
        assert e == Binary(Shl, e.ty, Int(e.lhs.intValue), e.rhs);
      }
    }
  }

  // ----- conjuncts -----

  /** Where a conjunct can be in a condition: on either side of `&&`, also of one that is lowered to an `if` with the
      literal `false` in its else-branch, alone in a block, or under temporaries. */
  datatype Place =
    | Here
    | OnLeft(place: Place, ty: Option<IntTy>, other: Expr)
    | OnRight(other: Expr, ty: Option<IntTy>, place: Place)
    | InCond(place: Place, other: Expr, els: FalseForm)
    | InThen(other: Expr, place: Place, els: FalseForm)
    | InTail(name: Option<HirId>, place: Place)
    | UnderTemps(place: Place)

  /** The literal `false`, possibly alone in a block, with or without temporaries. */
  datatype FalseForm = FalseForm(outer: bool, block: Option<Option<HirId>>, inner: bool)

  function FalseOf(f: FalseForm): Expr {
    var literal := Temps(f.inner, Bool(false));
    if f.block.Some? then Temps(f.outer, BlockExpr(f.block.value, Block([], Some(literal))))
        else Temps(f.outer, Bool(false))
  }

  function Fill(place: Place, conjunct: Expr): Expr {
    match place
    case Here => conjunct
    case OnLeft(p, ty, other) => Binary(And, ty, Fill(p, conjunct), other)
    case OnRight(other, ty, p) => Binary(And, ty, other, Fill(p, conjunct))
    case InCond(p, other, els) => If(Fill(p, conjunct), other, Some(FalseOf(els)))
    case InThen(other, p, els) => If(other, Fill(p, conjunct), Some(FalseOf(els)))
    case InTail(name, p) => BlockExpr(name, Block([], Some(Fill(p, conjunct))))
    case UnderTemps(p) => DropTemps(Fill(p, conjunct))
  }

  /** Temporaries are never wrapped twice. */
  predicate PlaceOk(place: Place) {
    match place
    case Here => true
    case OnLeft(p, _, _) => PlaceOk(p)
    case OnRight(_, _, p) => PlaceOk(p)
    case InCond(p, _, _) => PlaceOk(p)
    case InThen(_, p, _) => PlaceOk(p)
    case InTail(_, p) => PlaceOk(p)
    case UnderTemps(p) => !p.UnderTemps? && PlaceOk(p)
  }

  lemma FalseIsRecognised(f: FalseForm)
    ensures IsFalseLiteral(FalseOf(f))
  {
  }

  lemma RecognisedIsFalse(e: Expr) returns (f: FalseForm)
    requires IsFalseLiteral(e)
    ensures e == FalseOf(f)
  {
    var x := PeelDropTemps(e);
    if x.BlockExpr? {
      var tail := x.block.tail.value;
      f := FalseForm(e.DropTemps?, Some(x.blockLabel), tail.DropTemps?);
      assert x == BlockExpr(x.blockLabel, Block([], Some(Temps(f.inner, Bool(false)))));
    } else {
      f := FalseForm(e.DropTemps?, None, false);
    }
  }

  lemma {:induction false} ConjunctIsRecognised(place: Place, test: ZeroTest, id: HirId)
    requires PlaceOk(place) && !SaysZero(test)
    ensures id in LocalsNonzeroOnTrue(Fill(place, TestOf(test, id)))
    decreases place
  {
    match place
    case Here =>
      TestIsRecognised(test, id);
      TestIsBare(test, id);
    case OnLeft(p, _, _) => ConjunctIsRecognised(p, test, id);
    case OnRight(_, _, p) => ConjunctIsRecognised(p, test, id);
    case InCond(p, _, els) =>
      FalseIsRecognised(els);
      ConjunctIsRecognised(p, test, id);
    case InThen(_, p, els) =>
      FalseIsRecognised(els);
      ConjunctIsRecognised(p, test, id);
    case InTail(_, p) => ConjunctIsRecognised(p, test, id);
    case UnderTemps(p) =>
      ConjunctIsRecognised(p, test, id);
      TestIsBare(test, id);
      assert PeelDropTemps(Fill(place, TestOf(test, id))) == PeelDropTemps(Fill(p, TestOf(test, id)));
  }

  lemma {:induction false} RecognisedIsConjunct(cond: Expr, id: HirId) returns (place: Place, test: ZeroTest)
    requires id in LocalsNonzeroOnTrue(cond)
    ensures PlaceOk(place) && !SaysZero(test) && cond == Fill(place, TestOf(test, id))
    ensures !cond.DropTemps? ==> !place.UnderTemps?
    decreases cond
  {
    if cond.DropTemps? {
      assert !cond.inner.DropTemps?;
      var p;
      p, test := RecognisedIsConjunct(cond.inner, id);
      place := UnderTemps(p);
    } else if cond.BlockExpr? {
      var p;
      p, test := RecognisedIsConjunct(cond.block.tail.value, id);
      place := InTail(cond.blockLabel, p);
    } else if ZeroComparison(cond).Some? {
      test := RecognisedIsTest(cond);
      TestIsRecognised(test, id);
      place := Here;
    } else if cond.Binary? {
      place, test := RecognisedInAnd(cond, id);
    } else {
      place, test := RecognisedInIf(cond, id);
    }
  }

  lemma {:induction false} RecognisedInAnd(cond: Expr, id: HirId) returns (place: Place, test: ZeroTest)
    requires cond.Binary? && cond.op == And && ZeroComparison(cond).None? && id in LocalsNonzeroOnTrue(cond)
    ensures PlaceOk(place) && !SaysZero(test) && cond == Fill(place, TestOf(test, id)) && !place.UnderTemps?
    decreases cond, 0
  {
    var p;
    if id in LocalsNonzeroOnTrue(cond.lhs) {
      p, test := RecognisedIsConjunct(cond.lhs, id);
      place := OnLeft(p, cond.ty, cond.rhs);
    } else {
      p, test := RecognisedIsConjunct(cond.rhs, id);
      place := OnRight(cond.lhs, cond.ty, p);
    }
  }

  lemma {:induction false} RecognisedInIf(cond: Expr, id: HirId) returns (place: Place, test: ZeroTest)
    requires cond.If? && id in LocalsNonzeroOnTrue(cond)
    ensures PlaceOk(place) && !SaysZero(test) && cond == Fill(place, TestOf(test, id)) && !place.UnderTemps?
    decreases cond, 0
  {
    var f := RecognisedIsFalse(cond.elseBranch.value);
    var p;
    if id in LocalsNonzeroOnTrue(cond.cond) {
      p, test := RecognisedIsConjunct(cond.cond, id);
      place := InCond(p, cond.thenBranch, f);
    } else {
      p, test := RecognisedIsConjunct(cond.thenBranch, id);
      place := InThen(cond.cond, p, f);
    }
  }

  predicate SaysNonzeroAt(cond: Expr, id: HirId, place: Place, test: ZeroTest) {
    PlaceOk(place) && !SaysZero(test) && cond == Fill(place, TestOf(test, id))
  }

  /** A condition proves a local non-zero exactly when some conjunct of it says so. */
  lemma ConjunctForms(cond: Expr, id: HirId)
    ensures id in LocalsNonzeroOnTrue(cond) <==>
            exists place, test :: SaysNonzeroAt(cond, id, place, test)
  {
    if id in LocalsNonzeroOnTrue(cond) {
      var place, test := RecognisedIsConjunct(cond, id);
      assert SaysNonzeroAt(cond, id, place, test);
    }
    if place, test :| SaysNonzeroAt(cond, id, place, test) {
      ConjunctIsRecognised(place, test, id);
    }
  }

  // ----- constants -----

  /** An expression built from what counts as a constant by itself. */
  datatype Built = Leaf(e: Expr) | FieldOf(b: Built, field: nat) | Combined(op: BinOp, ty: Option<IntTy>, l: Built,
      r: Built)
                 | Converted(b: Built, target: Option<IntTy>)

  function Denoted(b: Built): Expr {
    match b
    case Leaf(e) => e
    case FieldOf(x, field) => Field(Denoted(x), field)
    case Combined(op, ty, l, r) => Binary(op, ty, Denoted(l), Denoted(r))
    case Converted(x, target) => Cast(Denoted(x), target)
  }

  /** The leaves are literals, named constants, constant locals, or evaluated by the compiler. */
  predicate LeavesOk(t: Typing, b: Built) {
    match b
    case Leaf(e) => e.Int? || e.Bool? || e.OtherLit? || e.Const? || (e.Local? && e.id in t.constants) ||
        t.isEvaluated(e)
    case FieldOf(x, _) => LeavesOk(t, x)
    case Combined(_, _, l, r) => LeavesOk(t, l) && LeavesOk(t, r)
    case Converted(x, _) => LeavesOk(t, x)
  }

  lemma {:induction false} BuiltIsConstant(t: Typing, b: Built)
    requires LeavesOk(t, b)
    ensures IsConstant(t, Denoted(b))
  {
    match b
    case Leaf(_) =>
    case FieldOf(x, _) => BuiltIsConstant(t, x);
    case Combined(_, _, l, r) =>
      BuiltIsConstant(t, l);
      BuiltIsConstant(t, r);
    case Converted(x, _) => BuiltIsConstant(t, x);
  }

  lemma {:induction false} ConstantIsBuilt(t: Typing, e: Expr) returns (b: Built)
    requires IsConstant(t, e)
    ensures Denoted(b) == e && LeavesOk(t, b)
    decreases e
  {
    if t.isEvaluated(e) {
      return Leaf(e);
    }
    match e
    case Field(base, field) =>
      var x := ConstantIsBuilt(t, base);
      b := FieldOf(x, field);
    case Binary(op, ty, l, r) =>
      var x := ConstantIsBuilt(t, l);
      var y := ConstantIsBuilt(t, r);
      b := Combined(op, ty, x, y);
    case Cast(x, target) =>
      var y := ConstantIsBuilt(t, x);
      b := Converted(y, target);
    case _ => b := Leaf(e);
  }

  /** What counts as a constant is exactly what is built from constants. */
  lemma ConstantForms(t: Typing, e: Expr)
    ensures IsConstant(t, e) <==> exists b :: Denoted(b) == e && LeavesOk(t, b)
  {
    if IsConstant(t, e) {
      var b := ConstantIsBuilt(t, e);
    }
    if b :| Denoted(b) == e && LeavesOk(t, b) {
      BuiltIsConstant(t, b);
    }
  }

  // ----- what guards are met, and what they protect -----

  /** The locals that a statement leaves guarded: those checked against zero, and those bound to a non-zero form. */
  lemma GuardedLocalForms(t: Typing, stmt: Stmt, g: Guards, id: HirId)
    ensures id in GuardsAfterStmt(t, stmt, g).locals <==>
            || id in g.locals
            || (stmt.ExprStmt? && IsZeroCheck(t, stmt.expr, id))
            || (stmt.Let? && stmt.binding == Some(id) && stmt.init.Some? && IsNonzeroForm(stmt.init.value))
  {
    if stmt.ExprStmt? {
      ZeroCheckForms(t, stmt.expr, id);
    } else if stmt.Let? && stmt.init.Some? {
      FormIsRecognised(stmt.init.value);
    }
  }

  /** The collections that a statement leaves guarded. */
  lemma GuardedReceiverForms(t: Typing, stmt: Stmt, g: Guards, r: Expr)
    ensures r in GuardsAfterStmt(t, stmt, g).receivers <==>
            r in g.receivers || (stmt.ExprStmt? && IsEmptinessCheck(t, stmt.expr, r))
  {
    if stmt.ExprStmt? {
      var e := stmt.expr;
      EmptinessCheckForms(t, e, r);
      if DivergingNonemptyGuard(t, e).Some? {
        EmptinessCheckForms(t, e, DivergingNonemptyGuard(t, e).value);
      }
    }
  }

  /** The length, possibly cast, of a guarded collection of simple form. */
  ghost predicate IsGuardedLength(divisor: Expr, g: Guards) {
    exists r, standard, never, cast :: r in g.receivers && OnlySimple(r) &&
        divisor == LengthOf(r, standard, never, cast)
  }

  lemma GuardedLengthForms(divisor: Expr, g: Guards)
    ensures IsGuardedLength(divisor, g) <==>
            var recv := LenCallReceiver(PeelIntCast(divisor));
            recv.Some? && exists r :: r in g.receivers && EqExprValue(r, recv.value)
  {
    var core := PeelIntCast(divisor);
    if LenCallReceiver(core).Some? {
      SimpleForms(core.receiver);
      var cast := if divisor.Cast? then Some(divisor.target) else None;
      assert divisor == LengthOf(core.receiver, core.standard, core.never, cast);
    }
    if r, standard, never, cast :| r in g.receivers && OnlySimple(r) && divisor == LengthOf(r, standard, never, cast) {
      SimpleForms(r);
      assert EqExprValue(r, r);
    }
  }

  /** A divisor is unsafe exactly when it is the literal zero, or neither a constant, nor a non-zero form, nor a guarded
      local, nor the length of a guarded collection. */
  lemma UnsafeForms(t: Typing, divisor: Expr, g: Guards)
    ensures DivisorIsUnsafe(t, divisor, g) <==>
            || divisor == Int(0)
            || (&& !(exists b :: Denoted(b) == divisor && LeavesOk(t, b))
                && !IsNonzeroForm(divisor) && !IsGuardedLength(divisor, g)
                && !(divisor.Local? && divisor.id in g.locals))
  {
    ConstantForms(t, divisor);
    FormIsRecognised(divisor);
    GuardedLengthForms(divisor, g);
  }
}
