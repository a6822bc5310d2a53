/** The recognisers of division-by-zero, as functions of the syntax, and its walk over a body as a
    function of the guards that are active. */
module DivisionGuards {
  import opened Options
  import opened Hir

  /** What the compiler says about an expression: its type is `!`, or it evaluates to a constant. `constants`
      are the locals whose `let` binds a constant,
          with the value it binds; `world` is what operators on other types mean. */
  datatype Typing = Typing(
    isNever: Expr -> bool,
    isEvaluated: Expr -> bool,
    constants: map<HirId, Value>,
    world: World)

  /** Taken for a constant: evaluated by the compiler, or made of literals, named constants and constant locals. */
  predicate IsConstant(t: Typing, e: Expr) {
    t.isEvaluated(e) ||
    match e
    case Int(_) => true
    case Bool(_) => true
    case OtherLit(_) => true
    case Const(_) => true
    case Local(id) => id in t.constants
    case Field(base, _) => IsConstant(t, base)
    case Binary(_, _, l, r) => IsConstant(t, l) && IsConstant(t, r)
    case Cast(x, _) => IsConstant(t, x)
    case _ => false
  }

  function PathToLocal(e: Expr): Option<HirId> {
    if e.Local? then Some(e.id) else None
  }

  function IntLiteral(e: Expr): Option<nat> {
    if e.Int? then Some(e.intValue) else None
  }

  predicate IsZeroLiteral(e: Expr) {
    IntLiteral(e) == Some(0)
  }

  predicate IsPositiveLiteral(e: Expr) {
    e.Int? && e.intValue >= 1
  }

  function LocalComparedToZero(lhs: Expr, rhs: Expr): Option<HirId> {
    if IsZeroLiteral(rhs) then PathToLocal(lhs)
    else if IsZeroLiteral(lhs) then PathToLocal(rhs)
    else None
  }

  function PeelIntCast(e: Expr): Expr {
    if e.Cast? then e.inner else e
  }

  function PeelDropTemps(e: Expr): Expr {
    if e.DropTemps? then e.inner else e
  }

  function LenCallReceiver(e: Expr): Option<Expr> {
    if e.MethodCall? && e.name == Len && e.args == [] then Some(e.receiver) else None
  }

  /** `x.clamp(lo, _)`, `x.max(k)`, `literal << k` with a positive literal. */
  predicate ExprIsNonzeroValue(e: Expr) {
    || (e.MethodCall? && e.name in {Clamp, Max} && e.args != [] && IsPositiveLiteral(e.args[0]))
    || (e.Binary? && e.op == Shl && IsPositiveLiteral(e.lhs))
  }

  function NonemptyGuardReceiver(cond: Expr): Option<Expr> {
    var c := PeelDropTemps(cond);
    if c.MethodCall? && c.name == IsEmpty && c.args == [] then Some(c.receiver)
    else if c.Binary? && c.op in {Lt, Le} && IsPositiveLiteral(c.rhs) then LenCallReceiver(c.lhs)
    else None
  }

  predicate ExprDiverges(t: Typing, e: Expr) {
    e.Ret? || e.Break? || e.Continue? || t.isNever(e)
  }

  predicate BlockDiverges(t: Typing, b: Block) {
    if b.tail.Some? then ExprDiverges(t, b.tail.value)
    else b.stmts != [] && b.stmts[|b.stmts| - 1].ExprStmt? && ExprDiverges(t, b.stmts[|b.stmts| - 1].expr)
  }

  predicate BranchDiverges(t: Typing, branch: Expr) {
    if branch.BlockExpr? then BlockDiverges(t, branch.block) else ExprDiverges(t, branch)
  }

  /** A comparison of a local with zero: the local, and whether the condition says it is zero. */
  function ZeroComparison(cond: Expr): Option<(HirId, bool)> {
    if cond.Binary? && cond.op in {Eq, Ne} then
      var local := LocalComparedToZero(cond.lhs, cond.rhs);
      if local.Some? then Some((local.value, cond.op == Eq)) else None
    else if cond.Unary? && cond.unop == Not then
      var inner := ZeroComparison(cond.operand);
      if inner.Some? then Some((inner.value.0, !inner.value.1)) else None
    else None
  }

  predicate IsFalseLiteral(e: Expr) {
    var x := PeelDropTemps(e);
    var y := if x.BlockExpr? && x.block.stmts == [] && x.block.tail.Some? then PeelDropTemps(x.block.tail.value) else x;
    y == Bool(false)
  }

  /** The locals proven non-zero when the condition holds. */
  function LocalsNonzeroOnTrue(cond: Expr): seq<HirId> {
    var c := PeelDropTemps(cond);
    if c.BlockExpr? then
      if c.block.stmts == [] && c.block.tail.Some? then LocalsNonzeroOnTrue(c.block.tail.value) else []
    else if ZeroComparison(c).Some? then
      if ZeroComparison(c).value.1 then [] else [ZeroComparison(c).value.0]
    else if c.Binary? && c.op == And then LocalsNonzeroOnTrue(c.lhs) + LocalsNonzeroOnTrue(c.rhs)
    else if c.If? && c.elseBranch.Some? && IsFalseLiteral(c.elseBranch.value) then
      LocalsNonzeroOnTrue(c.cond) + LocalsNonzeroOnTrue(c.thenBranch)
    else []
  }

  /** The local an `if` proves non-zero on the path past it. */
  function DivergingZeroGuard(t: Typing, e: Expr): Option<HirId> {
    if !e.If? || ZeroComparison(PeelDropTemps(e.cond)).None? then None
    else
      var (local, onEq) := ZeroComparison(PeelDropTemps(e.cond)).value;
      var zeroBranch := if onEq then Some(e.thenBranch) else e.elseBranch;
      if zeroBranch.Some? && BranchDiverges(t, zeroBranch.value) then Some(local) else None
  }

  /** The collection an `if` proves non-empty on the path past it. */
  function DivergingNonemptyGuard(t: Typing, e: Expr): Option<Expr> {
    if !e.If? then None
    else
      var recv := NonemptyGuardReceiver(PeelDropTemps(e.cond));
      if recv.Some? && BranchDiverges(t, e.thenBranch) then recv else None
  }

  /** Expressions whose structural equality means equal value: no calls, jumps or bindings. */
  predicate SideEffectFree(e: Expr) {
    match e
    case Int(_) => true
    case Bool(_) => true
    case OtherLit(_) => true
    case Local(_) => true
    case Const(_) => true
    case Field(base, _) => SideEffectFree(base)
    case Unary(_, _, x) => SideEffectFree(x)
    case Binary(_, _, l, r) => SideEffectFree(l) && SideEffectFree(r)
    case Cast(x, _) => SideEffectFree(x)
    case DropTemps(x) => SideEffectFree(x)
    case _ => false
  }

  predicate EqExprValue(a: Expr, b: Expr) {
    a == b && SideEffectFree(a)
  }

  /** The active guards: locals proven non-zero, receivers proven non-empty. */
  datatype Guards = Guards(locals: set<HirId>, receivers: seq<Expr>)

  const NO_GUARDS := Guards({}, [])

  predicate DivisorIsUnsafe(t: Typing, divisor: Expr, g: Guards) {
    if IsZeroLiteral(divisor) then true
    else if IsConstant(t, divisor) then false
    else if ExprIsNonzeroValue(divisor) then false
    else
      var recv := LenCallReceiver(PeelIntCast(divisor));
      if recv.Some? && exists r :: r in g.receivers && EqExprValue(r, recv.value) then false
      else if PathToLocal(divisor).Some? && PathToLocal(divisor).value in g.locals then false
      else true
  }

  predicate IsIntDivision(e: Expr) {
    e.Binary? && e.op in {Div, Rem} && e.ty.Some?
  }

  function ToSet(ids: seq<HirId>): (s: set<HirId>)
    ensures forall id :: id in s <==> id in ids
  {
    set id | id in ids
  }

  /** The guards where the condition holds. */
  function Proven(g: Guards, cond: Expr): Guards {
    g.(locals := g.locals + ToSet(LocalsNonzeroOnTrue(cond)))
  }

  // ----- the walk -----

  /** The detector skips a condition that guards something. The full walk visits it too, and protects each conjunct
      with what those before it prove. */
  datatype Walk = Skipping | Full

  /** The divisions reported in `e` when `g` is active, in the order they are met. */
  function Findings(t: Typing, e: Expr, g: Guards, w: Walk): seq<Expr>
    decreases e, 1
  {
    if e.If? && LocalsNonzeroOnTrue(e.cond) != [] then
      (if w == Full then FindingsInCondition(t, e.cond, g) else []) +
      Findings(t, e.thenBranch, Proven(g, e.cond), w) +
      (if e.elseBranch.Some? then Findings(t, e.elseBranch.value, g, w) else [])
    else
      (if IsIntDivision(e) && DivisorIsUnsafe(t, e.rhs, g) then [e] else []) + FindingsBelow(t, e, g, w)
  }

  /** The full walk of a condition, conjunct by conjunct. */
  function FindingsInCondition(t: Typing, cond: Expr, g: Guards): seq<Expr>
    decreases cond, 2
  {
    match cond
    case DropTemps(x) => FindingsInCondition(t, x, g)
    case Binary(And, _, l, r) => FindingsInCondition(t, l, g) + FindingsInCondition(t, r, Proven(g, l))
    case If(l, r, Some(els)) =>
      if IsFalseLiteral(els) then FindingsInCondition(t, l, g) + FindingsInCondition(t, r, Proven(g, l))
      else Findings(t, cond, g, Full)
    case BlockExpr(_, Block(stmts, Some(tail))) =>
      if stmts == [] then FindingsInCondition(t, tail, g) else Findings(t, cond, g, Full)
    case _ => Findings(t, cond, g, Full)
  }

  /** The findings in the children of `e`, all of them visited. */
  function FindingsBelow(t: Typing, e: Expr, g: Guards, w: Walk): seq<Expr>
    decreases e, 0
  {
    match e
    case Int(_) => []
    case Bool(_) => []
    case OtherLit(_) => []
    case Local(_) => []
    case Const(_) => []
    case Field(base, _) => Findings(t, base, g, w)
    case Unary(_, _, x) => Findings(t, x, g, w)
    case Binary(_, _, l, r) => Findings(t, l, g, w) + Findings(t, r, g, w)
    case Cast(x, _) => Findings(t, x, g, w)
    case DropTemps(x) => Findings(t, x, g, w)
    case If(c, x, y) =>
      Findings(t, c, g, w) + Findings(t, x, g, w) + (if y.Some? then Findings(t, y.value, g, w) else [])
    case Match(x, arms) => Findings(t, x, g, w) + FindingsInArgs(t, arms, g, w)
    case BlockExpr(_, block) => FindingsInBlock(t, block, g, w)
    case Loop(_, body, _, _) => FindingsInBlock(t, body, g, w)
    case Break(_, value) => if value.Some? then Findings(t, value.value, g, w) else []
    case Continue(_) => []
    case Ret(value) => if value.Some? then Findings(t, value.value, g, w) else []
    case Call(args, _) => FindingsInArgs(t, args, g, w)
    case MethodCall(_, _, receiver, args, _) => Findings(t, receiver, g, w) + FindingsInArgs(t, args, g, w)
  }

  function FindingsInArgs(t: Typing, args: seq<Expr>, g: Guards, w: Walk): seq<Expr>
    decreases args, 0
  {
    if args == [] then [] else Findings(t, args[0], g, w) + FindingsInArgs(t, args[1..], g, w)
  }

  function FindingsInBlock(t: Typing, block: Block, g: Guards, w: Walk): seq<Expr>
    decreases block, 0
  {
    FindingsInStmts(t, block.stmts, g, w) +
    (if block.tail.Some? then Findings(t, block.tail.value, GuardsAfter(t, block.stmts, g), w) else [])
  }

  function FindingsInStmts(t: Typing, stmts: seq<Stmt>, g: Guards, w: Walk): seq<Expr>
    decreases stmts, 0
  {
    if stmts == [] then []
    else FindingsInStmt(t, stmts[0], g, w) + FindingsInStmts(t, stmts[1..], GuardsAfterStmt(t, stmts[0], g), w)
  }

  function FindingsInStmt(t: Typing, stmt: Stmt, g: Guards, w: Walk): seq<Expr>
    decreases stmt, 0
  {
    match stmt
    case ExprStmt(e) => Findings(t, e, g, w)
    case Let(_, init, els) =>
      (if init.Some? then Findings(t, init.value, g, w) else []) +
      (if els.Some? then FindingsInBlock(t, els.value, GuardsAfterStmt(t, stmt, g), w) else [])
    case Item => []
  }

  /** A statement that is passed adds what it guards to the guards of the rest of its block. */
  function GuardsAfterStmt(t: Typing, stmt: Stmt, g: Guards): Guards {
    match stmt
    case ExprStmt(e) =>
      if DivergingZeroGuard(t, e).Some? then g.(locals := g.locals + {DivergingZeroGuard(t, e).value})
      else if DivergingNonemptyGuard(t, e).Some? then
          g.(receivers := g.receivers + [DivergingNonemptyGuard(t, e).value])
      else g
    case Let(Some(id), Some(init), _) =>
      if ExprIsNonzeroValue(init) then g.(locals := g.locals + {id}) else g
    case _ => g
  }

  function GuardsAfter(t: Typing, stmts: seq<Stmt>, g: Guards): Guards {
    if stmts == [] then g else GuardsAfter(t, stmts[1..], GuardsAfterStmt(t, stmts[0], g))
  }
}
