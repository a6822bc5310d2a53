/** The walk that division-by-zero does and the full walk find the same where no condition that guards something
    holds a division. */
module DivisionWalks {
  import opened Hir
  import opened HirScopes
  import opened DivisionGuards
  import opened DivisionSoundness

  // ----- nothing to find without a division -----

  lemma {:induction false} NothingToFind(t: Typing, e: Expr, g: Guards, w: Walk)
    requires NoDivisions(e)
    ensures Findings(t, e, g, w) == []
    decreases e, 1
  {
    assert NotDivision(e);
    if e.If? && LocalsNonzeroOnTrue(e.cond) != [] {
      NothingToFindInCondition(t, e.cond, g);
      NothingToFind(t, e.thenBranch, Proven(g, e.cond), w);
      if e.elseBranch.Some? {
        NothingToFind(t, e.elseBranch.value, g, w);
      }
    } else {
      NothingToFindBelow(t, e, g, w);
    }
  }

  lemma {:induction false} NothingToFindInCondition(t: Typing, cond: Expr, g: Guards)
    requires NoDivisions(cond)
    ensures FindingsInCondition(t, cond, g) == []
    decreases cond, 2
  {
    match cond
    case DropTemps(x) => NothingToFindInCondition(t, x, g);
    case Binary(And, _, l, r) =>
      NothingToFindInCondition(t, l, g);
      NothingToFindInCondition(t, r, Proven(g, l));
    case If(l, r, Some(els)) =>
      if IsFalseLiteral(els) {
        NothingToFindInCondition(t, l, g);
        NothingToFindInCondition(t, r, Proven(g, l));
      } else {
        NothingToFind(t, cond, g, Full);
      }
    case BlockExpr(_, Block(stmts, Some(tail))) =>
      if stmts == [] {
        assert AllBlock(cond.block, NotDivision, AnyStmt);
        NothingToFindInCondition(t, tail, g);
      } else {
        NothingToFind(t, cond, g, Full);
      }
    case _ => NothingToFind(t, cond, g, Full);
  }

  lemma {:induction false} NothingToFindBelow(t: Typing, e: Expr, g: Guards, w: Walk)
    requires NoDivisions(e)
    ensures FindingsBelow(t, e, g, w) == []
    decreases e, 0
  {
    match e
    case Field(base, _) => NothingToFind(t, base, g, w);
    case Unary(_, _, x) => NothingToFind(t, x, g, w);
    case Binary(_, _, l, r) =>
      NothingToFind(t, l, g, w);
      NothingToFind(t, r, g, w);
    case Cast(x, _) => NothingToFind(t, x, g, w);
    case DropTemps(x) => NothingToFind(t, x, g, w);
    case If(c, x, y) =>
      NothingToFind(t, c, g, w);
      NothingToFind(t, x, g, w);
      if y.Some? {
        NothingToFind(t, y.value, g, w);
      }
    case Match(x, arms) =>
      NothingToFind(t, x, g, w);
      NothingToFindInArgs(t, arms, g, w);
    case BlockExpr(_, block) => NothingToFindInBlock(t, block, g, w);
    case Loop(_, body, _, _) => NothingToFindInBlock(t, body, g, w);
    case Break(_, value) => if value.Some? { NothingToFind(t, value.value, g, w); }
    case Ret(value) => if value.Some? { NothingToFind(t, value.value, g, w); }
    case Call(args, _) => NothingToFindInArgs(t, args, g, w);
    case MethodCall(_, _, receiver, args, _) =>
      NothingToFind(t, receiver, g, w);
      NothingToFindInArgs(t, args, g, w);
    case _ =>
  }

  lemma {:induction false} NothingToFindInArgs(t: Typing, args: seq<Expr>, g: Guards, w: Walk)
    requires AllArgs(args, NotDivision, AnyStmt)
    ensures FindingsInArgs(t, args, g, w) == []
    decreases args, 0
  {
    if args != [] {
      NothingToFind(t, args[0], g, w);
      NothingToFindInArgs(t, args[1..], g, w);
    }
  }

  lemma {:induction false} NothingToFindInBlock(t: Typing, block: Block, g: Guards, w: Walk)
    requires AllBlock(block, NotDivision, AnyStmt)
    ensures FindingsInBlock(t, block, g, w) == []
    decreases block, 0
  {
    NothingToFindInStmts(t, block.stmts, g, w);
    if block.tail.Some? {
      NothingToFind(t, block.tail.value, GuardsAfter(t, block.stmts, g), w);
    }
  }

  lemma {:induction false} NothingToFindInStmts(t: Typing, stmts: seq<Stmt>, g: Guards, w: Walk)
    requires AllStmts(stmts, NotDivision, AnyStmt)
    ensures FindingsInStmts(t, stmts, g, w) == []
    decreases stmts, 0
  {
    if stmts != [] {
      NothingToFindInStmt(t, stmts[0], g, w);
      NothingToFindInStmts(t, stmts[1..], GuardsAfterStmt(t, stmts[0], g), w);
    }
  }

  lemma {:induction false} NothingToFindInStmt(t: Typing, stmt: Stmt, g: Guards, w: Walk)
    requires AllStmt(stmt, NotDivision, AnyStmt)
    ensures FindingsInStmt(t, stmt, g, w) == []
    decreases stmt, 0
  {
    match stmt
    case ExprStmt(e) => NothingToFind(t, e, g, w);
    case Let(_, init, els) =>
      if init.Some? {
        NothingToFind(t, init.value, g, w);
      }
      if els.Some? {
        NothingToFindInBlock(t, els.value, GuardsAfterStmt(t, stmt, g), w);
      }
    case Item =>
  }

  // ----- where the two walks find the same -----

  lemma {:induction false} WalksAgree(t: Typing, e: Expr, g: Guards)
    requires NoSkippedDivisions(e)
    ensures Findings(t, e, g, Skipping) == Findings(t, e, g, Full)
    decreases e, 1
  {
    assert GuardsWithoutDivision(e);
    if e.If? && LocalsNonzeroOnTrue(e.cond) != [] {
      NothingToFindInCondition(t, e.cond, g);
      WalksAgree(t, e.thenBranch, Proven(g, e.cond));
      if e.elseBranch.Some? {
        WalksAgree(t, e.elseBranch.value, g);
      }
    } else {
      WalksAgreeBelow(t, e, g);
    }
  }

  lemma {:induction false} WalksAgreeBelow(t: Typing, e: Expr, g: Guards)
    requires NoSkippedDivisions(e)
    ensures FindingsBelow(t, e, g, Skipping) == FindingsBelow(t, e, g, Full)
    decreases e, 0
  {
    match e
    case Field(base, _) => WalksAgree(t, base, g);
    case Unary(_, _, x) => WalksAgree(t, x, g);
    case Binary(_, _, l, r) =>
      WalksAgree(t, l, g);
      WalksAgree(t, r, g);
    case Cast(x, _) => WalksAgree(t, x, g);
    case DropTemps(x) => WalksAgree(t, x, g);
    case If(c, x, y) =>
      WalksAgree(t, c, g);
      WalksAgree(t, x, g);
      if y.Some? {
        WalksAgree(t, y.value, g);
      }
    case Match(x, arms) =>
      WalksAgree(t, x, g);
      WalksAgreeInArgs(t, arms, g);
    case BlockExpr(_, block) => WalksAgreeInBlock(t, block, g);
    case Loop(_, body, _, _) => WalksAgreeInBlock(t, body, g);
    case Break(_, value) => if value.Some? { WalksAgree(t, value.value, g); }
    case Ret(value) => if value.Some? { WalksAgree(t, value.value, g); }
    case Call(args, _) => WalksAgreeInArgs(t, args, g);
    case MethodCall(_, _, receiver, args, _) =>
      WalksAgree(t, receiver, g);
      WalksAgreeInArgs(t, args, g);
    case _ =>
  }

  lemma {:induction false} WalksAgreeInArgs(t: Typing, args: seq<Expr>, g: Guards)
    requires AllArgs(args, GuardsWithoutDivision, AnyStmt)
    ensures FindingsInArgs(t, args, g, Skipping) == FindingsInArgs(t, args, g, Full)
    decreases args, 0
  {
    if args != [] {
      WalksAgree(t, args[0], g);
      WalksAgreeInArgs(t, args[1..], g);
    }
  }

  lemma {:induction false} WalksAgreeInBlock(t: Typing, block: Block, g: Guards)
    requires AllBlock(block, GuardsWithoutDivision, AnyStmt)
    ensures FindingsInBlock(t, block, g, Skipping) == FindingsInBlock(t, block, g, Full)
    decreases block, 0
  {
    WalksAgreeInStmts(t, block.stmts, g);
    if block.tail.Some? {
      WalksAgree(t, block.tail.value, GuardsAfter(t, block.stmts, g));
    }
  }

  lemma {:induction false} WalksAgreeInStmts(t: Typing, stmts: seq<Stmt>, g: Guards)
    requires AllStmts(stmts, GuardsWithoutDivision, AnyStmt)
    ensures FindingsInStmts(t, stmts, g, Skipping) == FindingsInStmts(t, stmts, g, Full)
    decreases stmts, 0
  {
    if stmts != [] {
      WalksAgreeInStmt(t, stmts[0], g);
      WalksAgreeInStmts(t, stmts[1..], GuardsAfterStmt(t, stmts[0], g));
    }
  }

  lemma {:induction false} WalksAgreeInStmt(t: Typing, stmt: Stmt, g: Guards)
    requires AllStmt(stmt, GuardsWithoutDivision, AnyStmt)
    ensures FindingsInStmt(t, stmt, g, Skipping) == FindingsInStmt(t, stmt, g, Full)
    decreases stmt, 0
  {
    match stmt
    case ExprStmt(e) => WalksAgree(t, e, g);
    case Let(_, init, els) =>
      if init.Some? {
        WalksAgree(t, init.value, g);
      }
      if els.Some? {
        WalksAgreeInBlock(t, els.value, GuardsAfterStmt(t, stmt, g));
      }
    case Item =>
  }
}
