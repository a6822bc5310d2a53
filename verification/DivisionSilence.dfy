/** What division-by-zero does not report: divisions whose divisor is protected. */
module DivisionSilence {
  import opened Options
  import opened Hir
  import opened DivisionGuards
  import opened DivisionForms

  // ----- what is reported is unsafe under the guards at hand -----

  predicate MoreGuards(g: Guards, more: Guards) {
    g.locals <= more.locals && forall r :: r in g.receivers ==> r in more.receivers
  }

  ghost predicate AllUnsafe(t: Typing, findings: seq<Expr>, g: Guards) {
    forall x :: x in findings ==> x.Binary? && x.op in {Div, Rem} && x.ty.Some? && DivisorIsUnsafe(t, x.rhs, g)
  }

  /** More guards report no more. */
  lemma UnsafeWithFewer(t: Typing, findings: seq<Expr>, g: Guards, more: Guards)
    requires MoreGuards(g, more) && AllUnsafe(t, findings, more)
    ensures AllUnsafe(t, findings, g)
  {
  }

  lemma GuardsGrow(t: Typing, stmt: Stmt, g: Guards)
    ensures MoreGuards(g, GuardsAfterStmt(t, stmt, g))
  {
  }

  lemma {:induction false} GuardsGrowAfter(t: Typing, stmts: seq<Stmt>, g: Guards)
    ensures MoreGuards(g, GuardsAfter(t, stmts, g))
  {
    if stmts != [] {
      GuardsGrow(t, stmts[0], g);
      GuardsGrowAfter(t, stmts[1..], GuardsAfterStmt(t, stmts[0], g));
    }
  }

  /** Every finding is an integer division whose divisor is unsafe under the guards the walk started with. */
  lemma {:induction false} FindingsAreUnsafe(t: Typing, e: Expr, g: Guards, w: Walk)
    ensures AllUnsafe(t, Findings(t, e, g, w), g)
    decreases e, 1
  {
    if e.If? && LocalsNonzeroOnTrue(e.cond) != [] {
      ConditionFindingsAreUnsafe(t, e.cond, g);
      FindingsAreUnsafe(t, e.thenBranch, Proven(g, e.cond), w);
      UnsafeWithFewer(t, Findings(t, e.thenBranch, Proven(g, e.cond), w), g, Proven(g, e.cond));
      if e.elseBranch.Some? {
        FindingsAreUnsafe(t, e.elseBranch.value, g, w);
      }
    } else {
      FindingsBelowAreUnsafe(t, e, g, w);
    }
  }

  lemma {:induction false} ConditionFindingsAreUnsafe(t: Typing, cond: Expr, g: Guards)
    ensures AllUnsafe(t, FindingsInCondition(t, cond, g), g)
    decreases cond, 2
  {
    match cond
    case DropTemps(x) => ConditionFindingsAreUnsafe(t, x, g);
    case Binary(And, _, l, r) =>
      ConditionFindingsAreUnsafe(t, l, g);
      ConditionFindingsAreUnsafe(t, r, Proven(g, l));
      UnsafeWithFewer(t, FindingsInCondition(t, r, Proven(g, l)), g, Proven(g, l));
    case If(l, r, Some(els)) =>
      if IsFalseLiteral(els) {
        ConditionFindingsAreUnsafe(t, l, g);
        ConditionFindingsAreUnsafe(t, r, Proven(g, l));
        UnsafeWithFewer(t, FindingsInCondition(t, r, Proven(g, l)), g, Proven(g, l));
      } else {
        FindingsAreUnsafe(t, cond, g, Full);
      }
    case BlockExpr(_, Block(stmts, Some(tail))) =>
      if stmts == [] {
        ConditionFindingsAreUnsafe(t, tail, g);
      } else {
        FindingsAreUnsafe(t, cond, g, Full);
      }
    case _ => FindingsAreUnsafe(t, cond, g, Full);
  }

  lemma {:induction false} FindingsBelowAreUnsafe(t: Typing, e: Expr, g: Guards, w: Walk)
    ensures AllUnsafe(t, FindingsBelow(t, e, g, w), g)
    decreases e, 0
  {
    match e
    case Field(base, _) => FindingsAreUnsafe(t, base, g, w);
    case Unary(_, _, x) => FindingsAreUnsafe(t, x, g, w);
    case Binary(_, _, l, r) =>
      FindingsAreUnsafe(t, l, g, w);
      FindingsAreUnsafe(t, r, g, w);
    case Cast(x, _) => FindingsAreUnsafe(t, x, g, w);
    case DropTemps(x) => FindingsAreUnsafe(t, x, g, w);
    case If(c, x, y) =>
      FindingsAreUnsafe(t, c, g, w);
      FindingsAreUnsafe(t, x, g, w);
      if y.Some? {
        FindingsAreUnsafe(t, y.value, g, w);
      }
    case Match(x, arms) =>
      FindingsAreUnsafe(t, x, g, w);
      FindingsInArgsAreUnsafe(t, arms, g, w);
    case BlockExpr(_, block) => FindingsInBlockAreUnsafe(t, block, g, w);
    case Loop(_, body, _, _) => FindingsInBlockAreUnsafe(t, body, g, w);
    case Break(_, value) => if value.Some? { FindingsAreUnsafe(t, value.value, g, w); }
    case Ret(value) => if value.Some? { FindingsAreUnsafe(t, value.value, g, w); }
    case Call(args, _) => FindingsInArgsAreUnsafe(t, args, g, w);
    case MethodCall(_, _, receiver, args, _) =>
      FindingsAreUnsafe(t, receiver, g, w);
      FindingsInArgsAreUnsafe(t, args, g, w);
    case _ =>
  }

  lemma {:induction false} FindingsInArgsAreUnsafe(t: Typing, args: seq<Expr>, g: Guards, w: Walk)
    ensures AllUnsafe(t, FindingsInArgs(t, args, g, w), g)
    decreases args, 0
  {
    if args != [] {
      FindingsAreUnsafe(t, args[0], g, w);
      FindingsInArgsAreUnsafe(t, args[1..], g, w);
    }
  }

  lemma {:induction false} FindingsInBlockAreUnsafe(t: Typing, block: Block, g: Guards, w: Walk)
    ensures AllUnsafe(t, FindingsInBlock(t, block, g, w), g)
    decreases block, 0
  {
    FindingsInStmtsAreUnsafe(t, block.stmts, g, w);
    if block.tail.Some? {
      var later := GuardsAfter(t, block.stmts, g);
      FindingsAreUnsafe(t, block.tail.value, later, w);
      GuardsGrowAfter(t, block.stmts, g);
      UnsafeWithFewer(t, Findings(t, block.tail.value, later, w), g, later);
    }
  }

  lemma {:induction false} FindingsInStmtsAreUnsafe(t: Typing, stmts: seq<Stmt>, g: Guards, w: Walk)
    ensures AllUnsafe(t, FindingsInStmts(t, stmts, g, w), g)
    decreases stmts, 0
  {
    if stmts != [] {
      FindingsInStmtAreUnsafe(t, stmts[0], g, w);
      var later := GuardsAfterStmt(t, stmts[0], g);
      FindingsInStmtsAreUnsafe(t, stmts[1..], later, w);
      GuardsGrow(t, stmts[0], g);
      UnsafeWithFewer(t, FindingsInStmts(t, stmts[1..], later, w), g, later);
    }
  }

  lemma {:induction false} FindingsInStmtAreUnsafe(t: Typing, stmt: Stmt, g: Guards, w: Walk)
    ensures AllUnsafe(t, FindingsInStmt(t, stmt, g, w), g)
    decreases stmt, 0
  {
    match stmt
    case ExprStmt(e) => FindingsAreUnsafe(t, e, g, w);
    case Let(_, init, els) =>
      if init.Some? {
        FindingsAreUnsafe(t, init.value, g, w);
      }
      if els.Some? {
        var later := GuardsAfterStmt(t, stmt, g);
        FindingsInBlockAreUnsafe(t, els.value, later, w);
        GuardsGrow(t, stmt, g);
        UnsafeWithFewer(t, FindingsInBlock(t, els.value, later, w), g, later);
      }
    case Item =>
  }

  // ----- the rest of a block -----

  /** The findings after the statements `first`, in the statements `rest` and the tail. */
  function Later(t: Typing, first: seq<Stmt>, rest: seq<Stmt>, tail: Option<Expr>, g: Guards, w: Walk): seq<Expr> {
    FindingsInBlock(t, Block(rest, tail), GuardsAfter(t, first, g), w)
  }

  /** The findings of a block are those in its first statements and those after them. */
  lemma {:induction false} BlockSplits(t: Typing, first: seq<Stmt>, rest: seq<Stmt>, tail: Option<Expr>, g: Guards,
                                       w: Walk)
    ensures FindingsInBlock(t, Block(first + rest, tail), g, w) ==
            FindingsInStmts(t, first, g, w) + Later(t, first, rest, tail, g, w)
    decreases |first|
  {
    if first == [] {
      assert first + rest == rest;
    } else {
      var g' := GuardsAfterStmt(t, first[0], g);
      BlockSplits(t, first[1..], rest, tail, g', w);
      var all := first + rest;
      assert all[0] == first[0] && all[1..] == first[1..] + rest;
      var here := FindingsInStmt(t, first[0], g, w);
      assert FindingsInBlock(t, Block(all, tail), g, w) == here + FindingsInBlock(t, Block(all[1..], tail), g', w);
    }
  }

  lemma {:induction false} GuardsAfterLast(t: Typing, before: seq<Stmt>, stmt: Stmt, g: Guards)
    ensures GuardsAfter(t, before + [stmt], g) == GuardsAfterStmt(t, stmt, GuardsAfter(t, before, g))
    decreases |before|
  {
    if before == [] {
      assert before + [stmt] == [stmt] && [stmt][1..] == [];
    } else {
      assert (before + [stmt])[0] == before[0] && (before + [stmt])[1..] == before[1..] + [stmt];
      GuardsAfterLast(t, before[1..], stmt, GuardsAfterStmt(t, before[0], g));
    }
  }

  /** A divisor that is safe right after a statement is reported nowhere later in the block. */
  lemma SafeLater(t: Typing, before: seq<Stmt>, stmt: Stmt, after: seq<Stmt>, tail: Option<Expr>, divisor: Expr,
                  g: Guards, w: Walk)
    requires forall at :: !DivisorIsUnsafe(t, divisor, GuardsAfterStmt(t, stmt, at))
    ensures forall x :: x in Later(t, before + [stmt], after, tail, g, w) ==> IsIntDivision(x) && x.rhs != divisor
  {
    GuardsAfterLast(t, before, stmt, g);
    var at := GuardsAfter(t, before, g);
    FindingsInBlockAreUnsafe(t, Block(after, tail), GuardsAfterStmt(t, stmt, at), w);
  }

  // ----- what protects -----

  /** After an `if` that compares a local with zero and does not fall through where it is zero, no division by the
      local is reported in the rest of the block, at any depth. */
  lemma ZeroCheckProtects(t: Typing, check: Expr, id: HirId, before: seq<Stmt>, after: seq<Stmt>, tail: Option<Expr>,
                          g: Guards, w: Walk)
    requires IsZeroCheck(t, check, id)
    ensures forall x :: x in Later(t, before + [ExprStmt(check)], after, tail, g, w) ==>
              IsIntDivision(x) && x.rhs != Local(id)
  {
    ZeroCheckForms(t, check, id);
    SafeLater(t, before, ExprStmt(check), after, tail, Local(id), g, w);
  }

  /** After an `if` that checks a collection for emptiness and does not fall through where it is empty, no division by
      its length, cast or not, is reported in the rest of the block. */
  lemma EmptinessCheckProtects(t: Typing, check: Expr, r: Expr, standard: bool, never: bool,
                               cast: Option<Option<IntTy>>,
                               before: seq<Stmt>, after: seq<Stmt>, tail: Option<Expr>, g: Guards, w: Walk)
    requires IsEmptinessCheck(t, check, r) && OnlySimple(r)
    ensures forall x :: x in Later(t, before + [ExprStmt(check)], after, tail, g, w) ==>
              IsIntDivision(x) && x.rhs != LengthOf(r, standard, never, cast)
  {
    forall at
      ensures !DivisorIsUnsafe(t, LengthOf(r, standard, never, cast), GuardsAfterStmt(t, ExprStmt(check), at))
    {
      var later := GuardsAfterStmt(t, ExprStmt(check), at);
      GuardedReceiverForms(t, ExprStmt(check), at, r);
      assert IsGuardedLength(LengthOf(r, standard, never, cast), later);
      UnsafeForms(t, LengthOf(r, standard, never, cast), later);
    }
    SafeLater(t, before, ExprStmt(check), after, tail, LengthOf(r, standard, never, cast), g, w);
  }

  /** After a `let` of a non-zero form, no division by the local is reported in the rest of the block. */
  lemma NonzeroLetProtects(t: Typing, id: HirId, form: Expr, els: Option<Block>, before: seq<Stmt>, after: seq<Stmt>,
                           tail: Option<Expr>, g: Guards, w: Walk)
    requires IsNonzeroForm(form)
    ensures forall x :: x in Later(t, before + [Let(Some(id), Some(form), els)], after, tail, g, w) ==>
              IsIntDivision(x) && x.rhs != Local(id)
  {
    FormIsRecognised(form);
    SafeLater(t, before, Let(Some(id), Some(form), els), after, tail, Local(id), g, w);
  }

  /** A division by a non-zero form, or by a constant other than the literal zero, is reported nowhere. */
  lemma SafeFormIsSilent(t: Typing, form: Expr, e: Expr, g: Guards, w: Walk)
    requires IsNonzeroForm(form) || (form != Int(0) && exists b :: Denoted(b) == form && LeavesOk(t, b))
    ensures forall x :: x in Findings(t, e, g, w) ==> IsIntDivision(x) && x.rhs != form
  {
    UnsafeForms(t, form, g);
    FormIsRecognised(form);
    FindingsAreUnsafe(t, e, g, w);
  }

  /** In the branch of an `if` that is taken where some conjunct says that a local is not zero, no division by the
      local is reported. */
  lemma ConjunctProtects(t: Typing, place: Place, test: ZeroTest, id: HirId, thn: Expr, els: Option<Expr>, g: Guards)
    requires PlaceOk(place) && !SaysZero(test)
    ensures forall x :: x in Findings(t, If(Fill(place, TestOf(test, id)), thn, els), g, Skipping) ==>
              IsIntDivision(x) && (x.rhs != Local(id) || (els.Some? && x in Findings(t, els.value, g, Skipping)))
  {
    var cond := Fill(place, TestOf(test, id));
    ConjunctIsRecognised(place, test, id);
    FindingsAreUnsafe(t, thn, Proven(g, cond), Skipping);
    FindingsAreUnsafe(t, If(cond, thn, els), g, Skipping);
    assert id in Proven(g, cond).locals;
  }
}
