/** Scoping of bodies and what running a well-scoped expression leaves alone. */
module HirScopes {
  import opened Hir

  // ----- every subexpression and statement satisfies a condition -----

  ghost predicate All(e: Expr, p: Expr -> bool, q: Stmt -> bool)
    decreases e, 1
  {
    p(e) &&
    match e
    case Int(_) => true
    case Bool(_) => true
    case OtherLit(_) => true
    case Local(_) => true
    case Const(_) => true
    case Field(base, _) => All(base, p, q)
    case Unary(_, _, x) => All(x, p, q)
    case Binary(_, _, l, r) => All(l, p, q) && All(r, p, q)
    case Cast(x, _) => All(x, p, q)
    case DropTemps(x) => All(x, p, q)
    case If(c, x, y) => All(c, p, q) && All(x, p, q) && (y.Some? ==> All(y.value, p, q))
    case Match(x, arms) => All(x, p, q) && AllArgs(arms, p, q)
    case BlockExpr(_, block) => AllBlock(block, p, q)
    case Loop(_, body, _, _) => AllBlock(body, p, q)
    case Break(_, value) => value.Some? ==> All(value.value, p, q)
    case Continue(_) => true
    case Ret(value) => value.Some? ==> All(value.value, p, q)
    case Call(args, _) => AllArgs(args, p, q)
    case MethodCall(_, _, receiver, args, _) => All(receiver, p, q) && AllArgs(args, p, q)
  }

  ghost predicate AllArgs(args: seq<Expr>, p: Expr -> bool, q: Stmt -> bool)
    decreases args, 0
  {
    args != [] ==> All(args[0], p, q) && AllArgs(args[1..], p, q)
  }

  ghost predicate AllBlock(block: Block, p: Expr -> bool, q: Stmt -> bool)
    decreases block, 0
  {
    AllStmts(block.stmts, p, q) && (block.tail.Some? ==> All(block.tail.value, p, q))
  }

  ghost predicate AllStmts(stmts: seq<Stmt>, p: Expr -> bool, q: Stmt -> bool)
    decreases stmts, 0
  {
    stmts != [] ==> AllStmt(stmts[0], p, q) && AllStmts(stmts[1..], p, q)
  }

  ghost predicate AllStmt(stmt: Stmt, p: Expr -> bool, q: Stmt -> bool)
    decreases stmt, 0
  {
    q(stmt) &&
    match stmt
    case ExprStmt(e) => All(e, p, q)
    case Let(_, init, els) => (init.Some? ==> All(init.value, p, q)) && (els.Some? ==> AllBlock(els.value, p, q))
    case Item => true
  }

  lemma {:induction false} AllArm(args: seq<Expr>, p: Expr -> bool, q: Stmt -> bool, i: nat)
    requires AllArgs(args, p, q) && i < |args|
    ensures All(args[i], p, q)
  {
    if i > 0 {
      AllArm(args[1..], p, q, i - 1);
    }
  }

  // ----- scopes -----

  /** Every local read is in scope, and every binding is new. */
  ghost predicate Scoped(e: Expr, scope: set<HirId>)
    decreases e, 1
  {
    match e
    case Int(_) => true
    case Bool(_) => true
    case OtherLit(_) => true
    case Local(id) => id in scope
    case Const(_) => true
    case Field(base, _) => Scoped(base, scope)
    case Unary(_, _, x) => Scoped(x, scope)
    case Binary(_, _, l, r) => Scoped(l, scope) && Scoped(r, scope)
    case Cast(x, _) => Scoped(x, scope)
    case DropTemps(x) => Scoped(x, scope)
    case If(c, x, y) => Scoped(c, scope) && Scoped(x, scope) && (y.Some? ==> Scoped(y.value, scope))
    case Match(x, arms) => Scoped(x, scope) && ScopedArgs(arms, scope)
    case BlockExpr(_, block) => ScopedBlock(block, scope)
    case Loop(_, body, _, _) => ScopedBlock(body, scope)
    case Break(_, value) => value.Some? ==> Scoped(value.value, scope)
    case Continue(_) => true
    case Ret(value) => value.Some? ==> Scoped(value.value, scope)
    case Call(args, _) => ScopedArgs(args, scope)
    case MethodCall(_, _, receiver, args, _) => Scoped(receiver, scope) && ScopedArgs(args, scope)
  }

  ghost predicate ScopedArgs(args: seq<Expr>, scope: set<HirId>)
    decreases args, 0
  {
    args != [] ==> Scoped(args[0], scope) && ScopedArgs(args[1..], scope)
  }

  ghost predicate ScopedBlock(block: Block, scope: set<HirId>)
    decreases block, 0
  {
    ScopedStmts(block.stmts, scope) && (block.tail.Some? ==> Scoped(block.tail.value, ScopeAfter(block.stmts, scope)))
  }

  ghost predicate ScopedStmts(stmts: seq<Stmt>, scope: set<HirId>)
    decreases stmts, 0
  {
    stmts != [] ==> ScopedStmt(stmts[0], scope) && ScopedStmts(stmts[1..], scope + Bound(stmts[0]))
  }

  ghost predicate ScopedStmt(stmt: Stmt, scope: set<HirId>)
    decreases stmt, 0
  {
    match stmt
    case ExprStmt(e) => Scoped(e, scope)
    case Let(binding, init, els) =>
      && (binding.Some? ==> binding.value !in scope)
      && (init.Some? ==> Scoped(init.value, scope))
      && (els.Some? ==> ScopedBlock(els.value, scope))
    case Item => true
  }

  function Bound(stmt: Stmt): set<HirId> {
    if stmt.Let? && stmt.binding.Some? then {stmt.binding.value} else {}
  }

  function ScopeAfter(stmts: seq<Stmt>, scope: set<HirId>): set<HirId> {
    if stmts == [] then scope else ScopeAfter(stmts[1..], scope + Bound(stmts[0]))
  }

  lemma {:induction false} ScopeGrows(stmts: seq<Stmt>, scope: set<HirId>)
    ensures scope <= ScopeAfter(stmts, scope)
  {
    if stmts != [] {
      ScopeGrows(stmts[1..], scope + Bound(stmts[0]));
    }
  }

  // ----- frame: what is in scope keeps its value -----

  ghost predicate Keeps(scope: set<HirId>, s: State, s': State) {
    && s'.world == s.world
    && forall id :: id in scope && id in s.env ==> id in s'.env && s'.env[id] == s.env[id]
  }

  lemma {:induction false} FrameExpr(e: Expr, scope: set<HirId>, s: State, fuel: nat)
    requires Scoped(e, scope)
    ensures Keeps(scope, s, Eval(e, s, fuel).1)
    decreases fuel, e, 1
  {
    match e
    case Field(base, _) => FrameExpr(base, scope, s, fuel);
    case Unary(_, _, x) => FrameExpr(x, scope, s, fuel);
    case Binary(_, _, l, r) =>
      FrameExpr(l, scope, s, fuel);
      FrameExpr(r, scope, Eval(l, s, fuel).1, fuel);
    case Cast(x, _) => FrameExpr(x, scope, s, fuel);
    case DropTemps(x) => FrameExpr(x, scope, s, fuel);
    case If(_, _, _) => FrameIf(e, scope, s, fuel);
    case Match(x, arms) => FrameMatch(e, scope, s, fuel);
    case BlockExpr(_, block) => FrameBlock(block, scope, s, fuel);
    case Loop(_, body, _, _) =>
      FrameBlock(body, scope, s, fuel);
      if fuel > 0 {
        FrameExpr(e, scope, EvalBlock(body, s, fuel).1, fuel - 1);
      }
    case Break(_, value) => if value.Some? { FrameExpr(value.value, scope, s, fuel); }
    case Ret(value) => if value.Some? { FrameExpr(value.value, scope, s, fuel); }
    case Call(args, _) => FrameArgs(args, scope, s, fuel);
    case MethodCall(_, _, _, _, _) => FrameMethodCall(e, scope, s, fuel);
    case _ =>
  }

  lemma {:induction false} FrameIf(e: Expr, scope: set<HirId>, s: State, fuel: nat)
    requires e.If? && Scoped(e, scope)
    ensures Keeps(scope, s, Eval(e, s, fuel).1)
    decreases fuel, e, 0
  {
    FrameExpr(e.cond, scope, s, fuel);
    var s1 := Eval(e.cond, s, fuel).1;
    FrameExpr(e.thenBranch, scope, s1, fuel);
    if e.elseBranch.Some? {
      FrameExpr(e.elseBranch.value, scope, s1, fuel);
    }
  }

  lemma {:induction false} FrameMethodCall(e: Expr, scope: set<HirId>, s: State, fuel: nat)
    requires e.MethodCall? && Scoped(e, scope)
    ensures Keeps(scope, s, Eval(e, s, fuel).1)
    decreases fuel, e, 0
  {
    FrameExpr(e.receiver, scope, s, fuel);
    FrameArgs(e.args, scope, Eval(e.receiver, s, fuel).1, fuel);
  }

  lemma {:induction false} FrameMatch(e: Expr, scope: set<HirId>, s: State, fuel: nat)
    requires e.Match? && Scoped(e, scope)
    ensures Keeps(scope, s, Eval(e, s, fuel).1)
    decreases fuel, e, 0
  {
    FrameExpr(e.scrutinee, scope, s, fuel);
    var s1 := Eval(e.scrutinee, s, fuel).1;
    var (choice, s2) := Next(s1);
    if choice.Val? && choice.v.VInt? && 0 <= choice.v.n < |e.arms| {
      ScopedArm(e.arms, scope, choice.v.n);
      FrameExpr(e.arms[choice.v.n], scope, s2, fuel);
    }
  }

  lemma {:induction false} ScopedArm(args: seq<Expr>, scope: set<HirId>, i: nat)
    requires ScopedArgs(args, scope) && i < |args|
    ensures Scoped(args[i], scope)
  {
    if i > 0 {
      ScopedArm(args[1..], scope, i - 1);
    }
  }

  lemma {:induction false} FrameArgs(args: seq<Expr>, scope: set<HirId>, s: State, fuel: nat)
    requires ScopedArgs(args, scope)
    ensures Keeps(scope, s, EvalArgs(args, s, fuel).1)
    decreases fuel, args, 0
  {
    if args != [] {
      FrameExpr(args[0], scope, s, fuel);
      FrameArgs(args[1..], scope, Eval(args[0], s, fuel).1, fuel);
    }
  }

  lemma {:induction false} FrameBlock(block: Block, scope: set<HirId>, s: State, fuel: nat)
    requires ScopedBlock(block, scope)
    ensures Keeps(scope, s, EvalBlock(block, s, fuel).1)
    decreases fuel, block, 0
  {
    FrameStmts(block.stmts, scope, s, fuel);
    if block.tail.Some? {
      ScopeGrows(block.stmts, scope);
      FrameExpr(block.tail.value, ScopeAfter(block.stmts, scope), EvalStmts(block.stmts, s, fuel).1, fuel);
    }
  }

  lemma {:induction false} FrameStmts(stmts: seq<Stmt>, scope: set<HirId>, s: State, fuel: nat)
    requires ScopedStmts(stmts, scope)
    ensures Keeps(scope, s, EvalStmts(stmts, s, fuel).1)
    decreases fuel, stmts, 0
  {
    if stmts != [] {
      FrameStmt(stmts[0], scope, s, fuel);
      FrameStmts(stmts[1..], scope + Bound(stmts[0]), EvalStmt(stmts[0], s, fuel).1, fuel);
    }
  }

  lemma {:induction false} FrameStmt(stmt: Stmt, scope: set<HirId>, s: State, fuel: nat)
    requires ScopedStmt(stmt, scope)
    ensures Keeps(scope, s, EvalStmt(stmt, s, fuel).1)
    decreases fuel, stmt, 0
  {
    match stmt
    case ExprStmt(e) => FrameExpr(e, scope, s, fuel);
    case Let(_, Some(init), els) =>
      FrameExpr(init, scope, s, fuel);
      if els.Some? {
        FrameBlock(els.value, scope, Next(Eval(init, s, fuel).1).1, fuel);
      }
    case _ =>
  }
}
