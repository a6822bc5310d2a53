/** Loops without an escape (detector non-terminating-loop). */
module NonTerminatingLoop {
  import opened Options
  import opened Hir

  // ----- what counts as an escape -----

  /** `e` holds a `return`, a call of type `!`, or a `break` out of every loop nested so far.
      A `continue` is never an escape. */
  predicate HasEscape(e: Expr, nested: set<HirId>)
    decreases e, 1
  {
    match e
    case Int(_) => false
    case Bool(_) => false
    case OtherLit(_) => false
    case Local(_) => false
    case Const(_) => false
    case Field(base, _) => HasEscape(base, nested)
    case Unary(_, _, x) => HasEscape(x, nested)
    case Binary(_, _, l, r) => HasEscape(l, nested) || HasEscape(r, nested)
    case Cast(x, _) => HasEscape(x, nested)
    case DropTemps(x) => HasEscape(x, nested)
    case If(c, x, y) => HasEscape(c, nested) || HasEscape(x, nested) || (y.Some? && HasEscape(y.value, nested))
    case Match(x, arms) => HasEscape(x, nested) || ArgsEscape(arms, nested)
    case BlockExpr(_, block) => BlockEscapes(block, nested)
    case Loop(id, body, _, _) => BlockEscapes(body, nested + {id})
    case Break(dest, value) => dest !in nested || (value.Some? && HasEscape(value.value, nested))
    case Continue(_) => false
    case Ret(_) => true
    case Call(args, never) => never || ArgsEscape(args, nested)
    case MethodCall(_, _, receiver, args, never) => never || HasEscape(receiver, nested) || ArgsEscape(args, nested)
  }

  predicate ArgsEscape(args: seq<Expr>, nested: set<HirId>)
    decreases args, 0
  {
    args != [] && (HasEscape(args[0], nested) || ArgsEscape(args[1..], nested))
  }

  predicate BlockEscapes(block: Block, nested: set<HirId>)
    decreases block, 0
  {
    StmtsEscape(block.stmts, nested) || (block.tail.Some? && HasEscape(block.tail.value, nested))
  }

  predicate StmtsEscape(stmts: seq<Stmt>, nested: set<HirId>)
    decreases stmts, 0
  {
    stmts != [] && (StmtEscapes(stmts[0], nested) || StmtsEscape(stmts[1..], nested))
  }

  predicate StmtEscapes(stmt: Stmt, nested: set<HirId>)
    decreases stmt, 0
  {
    match stmt
    case ExprStmt(e) => HasEscape(e, nested)
    case Let(_, init, els) =>
      (init.Some? && HasEscape(init.value, nested)) || (els.Some? && BlockEscapes(els.value, nested))
    case Item => false
  }

  /** The loops that a `continue` in `e` can go back to, other than the nested ones. */
  function Continues(e: Expr, nested: set<HirId>): set<HirId>
    decreases e, 1
  {
    match e
    case Field(base, _) => Continues(base, nested)
    case Unary(_, _, x) => Continues(x, nested)
    case Binary(_, _, l, r) => Continues(l, nested) + Continues(r, nested)
    case Cast(x, _) => Continues(x, nested)
    case DropTemps(x) => Continues(x, nested)
    case If(c, x, y) =>
      Continues(c, nested) + Continues(x, nested) + (if y.Some? then Continues(y.value, nested) else {})
    case Match(x, arms) => Continues(x, nested) + ArgsContinue(arms, nested)
    case BlockExpr(_, block) => BlockContinues(block, nested)
    case Loop(id, body, _, _) => BlockContinues(body, nested + {id})
    case Break(_, value) => if value.Some? then Continues(value.value, nested) else {}
    case Continue(dest) => {dest} - nested
    case Ret(value) => if value.Some? then Continues(value.value, nested) else {}
    case Call(args, _) => ArgsContinue(args, nested)
    case MethodCall(_, _, receiver, args, _) => Continues(receiver, nested) + ArgsContinue(args, nested)
    case _ => {}
  }

  function ArgsContinue(args: seq<Expr>, nested: set<HirId>): set<HirId>
    decreases args, 0
  {
    if args == [] then {} else Continues(args[0], nested) + ArgsContinue(args[1..], nested)
  }

  function BlockContinues(block: Block, nested: set<HirId>): set<HirId>
    decreases block, 0
  {
    StmtsContinue(block.stmts, nested) + (if block.tail.Some? then Continues(block.tail.value, nested) else {})
  }

  function StmtsContinue(stmts: seq<Stmt>, nested: set<HirId>): set<HirId>
    decreases stmts, 0
  {
    if stmts == [] then {} else StmtContinues(stmts[0], nested) + StmtsContinue(stmts[1..], nested)
  }

  function StmtContinues(stmt: Stmt, nested: set<HirId>): set<HirId>
    decreases stmt, 0
  {
    match stmt
    case ExprStmt(e) => Continues(e, nested)
    case Let(_, init, els) =>
      (if init.Some? then Continues(init.value, nested) else {}) +
      (if els.Some? then BlockContinues(els.value, nested) else {})
    case Item => {}
  }

  // ----- what escape-free code cannot do -----

  /** Ends without leaving the loop: with a value, by a jump to a nested loop, by a `continue` listed
      in `continues`, or not at all. */
  ghost predicate Stays(o: Outcome, nested: set<HirId>, continues: set<HirId>) {
    && o != Returned && o != Aborted
    && (o.Brk? ==> o.dest in nested)
    && (o.Cont? ==> o.dest in nested + continues)
  }

  lemma {:induction false} EscapeFreeExpr(e: Expr, nested: set<HirId>, s: State, fuel: nat)
    requires !HasEscape(e, nested)
    ensures Stays(Eval(e, s, fuel).0, nested, Continues(e, nested))
    decreases fuel, e, 2
  {
    match e
    case Field(base, _) => EscapeFreeExpr(base, nested, s, fuel);
    case Unary(_, _, x) => EscapeFreeExpr(x, nested, s, fuel);
    case Binary(_, _, l, r) => EscapeFreeBinary(e, nested, s, fuel);
    case Cast(x, _) => EscapeFreeExpr(x, nested, s, fuel);
    case DropTemps(x) => EscapeFreeExpr(x, nested, s, fuel);
    case If(_, _, _) => EscapeFreeIf(e, nested, s, fuel);
    case Match(_, _) => EscapeFreeMatch(e, nested, s, fuel);
    case BlockExpr(_, block) => EscapeFreeBlock(block, nested, s, fuel);
    case Loop(id, body, _, _) =>
      EscapeFreeBlock(body, nested + {id}, s, fuel);
      if fuel > 0 {
        EscapeFreeExpr(e, nested, EvalBlock(body, s, fuel).1, fuel - 1);
      }
    case Break(_, value) => if value.Some? { EscapeFreeExpr(value.value, nested, s, fuel); }
    case Call(args, _) => EscapeFreeArgs(args, nested, s, fuel);
    case MethodCall(_, _, _, _, _) => EscapeFreeMethodCall(e, nested, s, fuel);
    case _ =>
  }

  lemma {:induction false} EscapeFreeIf(e: Expr, nested: set<HirId>, s: State, fuel: nat)
    requires e.If? && !HasEscape(e, nested)
    ensures Stays(Eval(e, s, fuel).0, nested, Continues(e, nested))
    decreases fuel, e, 1
  {
    EscapeFreeExpr(e.cond, nested, s, fuel);
    var s1 := Eval(e.cond, s, fuel).1;
    EscapeFreeExpr(e.thenBranch, nested, s1, fuel);
    if e.elseBranch.Some? {
      EscapeFreeExpr(e.elseBranch.value, nested, s1, fuel);
    }
  }

  lemma {:induction false} EscapeFreeMethodCall(e: Expr, nested: set<HirId>, s: State, fuel: nat)
    requires e.MethodCall? && !HasEscape(e, nested)
    ensures Stays(Eval(e, s, fuel).0, nested, Continues(e, nested))
    decreases fuel, e, 1
  {
    EscapeFreeExpr(e.receiver, nested, s, fuel);
    EscapeFreeArgs(e.args, nested, Eval(e.receiver, s, fuel).1, fuel);
  }

  lemma {:induction false} EscapeFreeBinary(e: Expr, nested: set<HirId>, s: State, fuel: nat)
    requires e.Binary? && !HasEscape(e, nested)
    ensures Stays(Eval(e, s, fuel).0, nested, Continues(e, nested))
    decreases fuel, e, 1
  {
    var s1 := Eval(e.lhs, s, fuel).1;
    EscapeFreeExpr(e.lhs, nested, s, fuel);
    EscapeFreeExpr(e.rhs, nested, s1, fuel);
    BinaryOutcome(e, s, fuel);
    var l, r := Continues(e.lhs, nested), Continues(e.rhs, nested);
    assert Continues(e, nested) == l + r;
  }

  /** A binary operation ends as one of its operands does, or on its own account. */
  lemma BinaryOutcome(e: Expr, s: State, fuel: nat)
    requires e.Binary?
    ensures var o := Eval(e, s, fuel).0;
            || o == Eval(e.lhs, s, fuel).0
            || o == Eval(e.rhs, Eval(e.lhs, s, fuel).1, fuel).0
            || o.Val? || o in {Stuck, Panicked, DivByZero}
  {
  }

  lemma {:induction false} EscapeFreeMatch(e: Expr, nested: set<HirId>, s: State, fuel: nat)
    requires e.Match? && !HasEscape(e, nested)
    ensures Stays(Eval(e, s, fuel).0, nested, Continues(e, nested))
    decreases fuel, e, 1
  {
    EscapeFreeExpr(e.scrutinee, nested, s, fuel);
    var (choice, s2) := Next(Eval(e.scrutinee, s, fuel).1);
    if choice.Val? && choice.v.VInt? && 0 <= choice.v.n < |e.arms| {
      EscapeFreeArm(e.arms, nested, choice.v.n);
      EscapeFreeExpr(e.arms[choice.v.n], nested, s2, fuel);
    }
  }

  lemma {:induction false} EscapeFreeArm(args: seq<Expr>, nested: set<HirId>, i: nat)
    requires !ArgsEscape(args, nested) && i < |args|
    ensures !HasEscape(args[i], nested) && Continues(args[i], nested) <= ArgsContinue(args, nested)
  {
    if i > 0 {
      EscapeFreeArm(args[1..], nested, i - 1);
    }
  }

  lemma {:induction false} EscapeFreeArgs(args: seq<Expr>, nested: set<HirId>, s: State, fuel: nat)
    requires !ArgsEscape(args, nested)
    ensures EvalArgs(args, s, fuel).0.Halt? ==>
        Stays(EvalArgs(args, s, fuel).0.outcome, nested, ArgsContinue(args, nested))
    decreases fuel, args, 0
  {
    if args != [] {
      EscapeFreeExpr(args[0], nested, s, fuel);
      EscapeFreeArgs(args[1..], nested, Eval(args[0], s, fuel).1, fuel);
    }
  }

  lemma {:induction false} EscapeFreeBlock(block: Block, nested: set<HirId>, s: State, fuel: nat)
    requires !BlockEscapes(block, nested)
    ensures Stays(EvalBlock(block, s, fuel).0, nested, BlockContinues(block, nested))
    decreases fuel, block, 0
  {
    EscapeFreeStmts(block.stmts, nested, s, fuel);
    if block.tail.Some? {
      EscapeFreeExpr(block.tail.value, nested, EvalStmts(block.stmts, s, fuel).1, fuel);
    }
  }

  lemma {:induction false} EscapeFreeStmts(stmts: seq<Stmt>, nested: set<HirId>, s: State, fuel: nat)
    requires !StmtsEscape(stmts, nested)
    ensures Stays(EvalStmts(stmts, s, fuel).0, nested, StmtsContinue(stmts, nested))
    decreases fuel, stmts, 0
  {
    if stmts != [] {
      EscapeFreeStmt(stmts[0], nested, s, fuel);
      EscapeFreeStmts(stmts[1..], nested, EvalStmt(stmts[0], s, fuel).1, fuel);
    }
  }

  lemma {:induction false} EscapeFreeStmt(stmt: Stmt, nested: set<HirId>, s: State, fuel: nat)
    requires !StmtEscapes(stmt, nested)
    ensures Stays(EvalStmt(stmt, s, fuel).0, nested, StmtContinues(stmt, nested))
    decreases fuel, stmt, 0
  {
    match stmt
    case ExprStmt(e) => EscapeFreeExpr(e, nested, s, fuel);
    case Let(_, Some(init), els) =>
      EscapeFreeExpr(init, nested, s, fuel);
      if els.Some? {
        EscapeFreeBlock(els.value, nested, Next(Eval(init, s, fuel).1).1, fuel);
      }
    case _ =>
  }

  /** However long it runs, an escape-free loop yields no value, breaks nothing and does not return: it
      is still running, an operation in it panicked, or it continued a loop around it. */
  lemma {:induction false} EscapeFreeLoopNeverFinishes(loop: Expr, s: State, fuel: nat)
    requires loop.Loop? && !BlockEscapes(loop.body, {})
    ensures var o := Eval(loop, s, fuel).0;
            || o in {OutOfFuel, Panicked, DivByZero, Stuck}
            || (o.Cont? && o.dest in BlockContinues(loop.body, {}) - {loop.loopId})
    decreases fuel
  {
    EscapeFreeBlock(loop.body, {}, s, fuel);
    if fuel > 0 {
      EscapeFreeLoopNeverFinishes(loop, EvalBlock(loop.body, s, fuel).1, fuel - 1);
    }
  }

  /** The exception is real: a loop that continues the loop around it has no escape, and yet is left. */
  lemma ContinueLeavesTheLoop(s: State, fuel: nat)
    ensures var inner := Loop(1, Block([ExprStmt(Continue(0))], None), BareLoop, false);
            !BlockEscapes(inner.body, {}) && Eval(inner, s, fuel).0 == Cont(0)
  {
    var body := Block([ExprStmt(Continue(0))], None);
    assert EvalStmt(body.stmts[0], s, fuel) == (Cont(0), s);
    assert EvalBlock(body, s, fuel) == (Cont(0), s);
    assert StmtsEscape(body.stmts[1..], {}) == false;
  }

  /** `loop { if false { continue 'outer } }`. */
  function IdleContinue(): Expr {
    Loop(1, Block([], Some(If(Bool(false), BlockExpr(None, Block([], Some(Continue(0)))), None))), BareLoop, false)
  }

  lemma IdleContinueFacts()
    ensures !BlockEscapes(IdleContinue().body, {}) && BlockContinues(IdleContinue().body, {}) == {0}
  {
    var body := IdleContinue().body;
    var e := body.tail.value;
    var inner := e.thenBranch.block;
    assert !StmtsEscape([], {}) && StmtsContinue([], {}) == {};
    assert !HasEscape(Continue(0), {}) && Continues(Continue(0), {}) == {0};
    assert !BlockEscapes(inner, {}) && BlockContinues(inner, {}) == {0};
    assert !HasEscape(e.thenBranch, {}) && Continues(e.thenBranch, {}) == {0};
    assert !HasEscape(e, {}) && Continues(e, {}) == {0};
  }

  /** The other direction fails: this loop has such a `continue`, and is still never left. */
  lemma {:induction false} ContinueNeedNotLeave(s: State, fuel: nat)
    ensures !BlockEscapes(IdleContinue().body, {}) && 0 in BlockContinues(IdleContinue().body, {})
    ensures Eval(IdleContinue(), s, fuel).0 == OutOfFuel
    decreases fuel
  {
    IdleContinueFacts();
    var body := IdleContinue().body;
    assert Eval(Bool(false), s, fuel) == (Val(VBool(false)), s);
    assert Eval(body.tail.value, s, fuel) == (Val(VUnit), s);
    assert EvalStmts([], s, fuel) == (Val(VUnit), s);
    assert EvalBlock(body, s, fuel) == (Val(VUnit), s);
    if fuel > 0 {
      ContinueNeedNotLeave(s, fuel - 1);
    }
  }

  // ----- the visitors -----

  /** Labels are scoped: `loops` holds the loops of the body, and a `break` to one of them is inside it. */
  ghost predicate BreaksScoped(e: Expr, loops: set<HirId>, nested: set<HirId>)
    decreases e, 1
  {
    match e
    case Field(base, _) => BreaksScoped(base, loops, nested)
    case Unary(_, _, x) => BreaksScoped(x, loops, nested)
    case Binary(_, _, l, r) => BreaksScoped(l, loops, nested) && BreaksScoped(r, loops, nested)
    case Cast(x, _) => BreaksScoped(x, loops, nested)
    case DropTemps(x) => BreaksScoped(x, loops, nested)
    case If(c, x, y) =>
      BreaksScoped(c, loops, nested) && BreaksScoped(x, loops, nested) &&
      (y.Some? ==> BreaksScoped(y.value, loops, nested))
    case Match(x, arms) => BreaksScoped(x, loops, nested) && ArgsScoped(arms, loops, nested)
    case BlockExpr(_, block) => BlockScoped(block, loops, nested)
    case Loop(id, body, _, _) => id in loops && BlockScoped(body, loops, nested + {id})
    case Break(dest, value) =>
      (dest in loops ==> dest in nested) && (value.Some? ==> BreaksScoped(value.value, loops, nested))
    case Ret(value) => value.Some? ==> BreaksScoped(value.value, loops, nested)
    case Call(args, _) => ArgsScoped(args, loops, nested)
    case MethodCall(_, _, receiver, args, _) => BreaksScoped(receiver, loops, nested) && ArgsScoped(args, loops, nested)
    case _ => true
  }

  ghost predicate ArgsScoped(args: seq<Expr>, loops: set<HirId>, nested: set<HirId>)
    decreases args, 0
  {
    args != [] ==> BreaksScoped(args[0], loops, nested) && ArgsScoped(args[1..], loops, nested)
  }

  ghost predicate BlockScoped(block: Block, loops: set<HirId>, nested: set<HirId>)
    decreases block, 0
  {
    StmtsScoped(block.stmts, loops, nested) && (block.tail.Some? ==> BreaksScoped(block.tail.value, loops, nested))
  }

  ghost predicate StmtsScoped(stmts: seq<Stmt>, loops: set<HirId>, nested: set<HirId>)
    decreases stmts, 0
  {
    stmts != [] ==> StmtScoped(stmts[0], loops, nested) && StmtsScoped(stmts[1..], loops, nested)
  }

  ghost predicate StmtScoped(stmt: Stmt, loops: set<HirId>, nested: set<HirId>)
    decreases stmt, 0
  {
    match stmt
    case ExprStmt(e) => BreaksScoped(e, loops, nested)
    case Let(_, init, els) =>
      (init.Some? ==> BreaksScoped(init.value, loops, nested)) && (els.Some? ==> BlockScoped(els.value, loops, nested))
    case Item => true
  }

  /** Loops it has entered are remembered for good, also after they have been left. */
  class EscapeVisitor {
    var innerLoops: seq<HirId>
    var hasEscape: bool

    constructor ()
      ensures innerLoops == [] && !hasEscape
    {
      innerLoops, hasEscape := [], false;
    }

    ghost predicate Between(nested: set<HirId>, loops: set<HirId>)
      reads this
    {
      (forall id :: id in nested ==> id in innerLoops) && (forall id :: id in innerLoops ==> id in loops)
    }

    method VisitExpr(e: Expr, ghost loops: set<HirId>, ghost nested: set<HirId>)
      requires BreaksScoped(e, loops, nested) && Between(nested, loops)
      modifies this
      ensures Between(nested, loops)
      ensures hasEscape <==> old(hasEscape) || HasEscape(e, nested)
      decreases e, 2
    {
      if hasEscape {
        return;
      }
      match e
      case Ret(_) => hasEscape := true;
      case Break(dest, value) =>
        if dest !in innerLoops {
          hasEscape := true;
        } else if value.Some? {
          VisitExpr(value.value, loops, nested);
        }
      case Call(args, never) =>
        if never {
          hasEscape := true;
        } else {
          VisitArgs(args, loops, nested);
        }
      case MethodCall(_, _, _, _, never) =>
        if never {
          hasEscape := true;
        } else {
          WalkMethodCall(e, loops, nested);
        }
      case Loop(id, body, _, _) =>
        innerLoops := innerLoops + [id];
        VisitBlock(body, loops, nested + {id});
      case _ => WalkExpr(e, loops, nested);
    }

    method WalkMethodCall(e: Expr, ghost loops: set<HirId>, ghost nested: set<HirId>)
      requires e.MethodCall? && !e.never
      requires BreaksScoped(e, loops, nested) && Between(nested, loops) && !hasEscape
      modifies this
      ensures Between(nested, loops)
      ensures hasEscape <==> HasEscape(e, nested)
      decreases e, 1
    {
      VisitExpr(e.receiver, loops, nested);
      VisitArgs(e.args, loops, nested);
    }

    method WalkExpr(e: Expr, ghost loops: set<HirId>, ghost nested: set<HirId>)
      requires !e.Ret? && !e.Break? && !e.Call? && !e.MethodCall? && !e.Loop?
      requires BreaksScoped(e, loops, nested) && Between(nested, loops) && !hasEscape
      modifies this
      ensures Between(nested, loops)
      ensures hasEscape <==> HasEscape(e, nested)
      decreases e, 1
    {
      match e
      case Field(base, _) => VisitExpr(base, loops, nested);
      case Unary(_, _, x) => VisitExpr(x, loops, nested);
      case Binary(_, _, l, r) =>
        VisitExpr(l, loops, nested);
        VisitExpr(r, loops, nested);
      case Cast(x, _) => VisitExpr(x, loops, nested);
      case DropTemps(x) => VisitExpr(x, loops, nested);
      case If(c, x, y) =>
        VisitExpr(c, loops, nested);
        VisitExpr(x, loops, nested);
        if y.Some? {
          VisitExpr(y.value, loops, nested);
        }
      case Match(x, arms) =>
        VisitExpr(x, loops, nested);
        VisitArgs(arms, loops, nested);
      case BlockExpr(_, block) => VisitBlock(block, loops, nested);
      case _ =>
    }

    method VisitArgs(args: seq<Expr>, ghost loops: set<HirId>, ghost nested: set<HirId>)
      requires ArgsScoped(args, loops, nested) && Between(nested, loops)
      modifies this
      ensures Between(nested, loops)
      ensures hasEscape <==> old(hasEscape) || ArgsEscape(args, nested)
      decreases args, 0
    {
      for i := 0 to |args|
        invariant Between(nested, loops) && ArgsScoped(args[i..], loops, nested)
        invariant (hasEscape || ArgsEscape(args[i..], nested)) <==> (old(hasEscape) || ArgsEscape(args, nested))
      {
        assert args[i..][0] == args[i] && args[i..][1..] == args[i + 1..];
        VisitExpr(args[i], loops, nested);
      }
      assert args[|args|..] == [];
    }

    method VisitBlock(block: Block, ghost loops: set<HirId>, ghost nested: set<HirId>)
      requires BlockScoped(block, loops, nested) && Between(nested, loops)
      modifies this
      ensures Between(nested, loops)
      ensures hasEscape <==> old(hasEscape) || BlockEscapes(block, nested)
      decreases block, 0
    {
      var stmts := block.stmts;
      for i := 0 to |stmts|
        invariant Between(nested, loops) && StmtsScoped(stmts[i..], loops, nested)
        invariant (hasEscape || StmtsEscape(stmts[i..], nested)) <==> (old(hasEscape) || StmtsEscape(stmts, nested))
      {
        assert stmts[i..][0] == stmts[i] && stmts[i..][1..] == stmts[i + 1..];
        VisitStmt(stmts[i], loops, nested);
      }
      assert stmts[|stmts|..] == [];
      if block.tail.Some? {
        VisitExpr(block.tail.value, loops, nested);
      }
    }

    method VisitStmt(stmt: Stmt, ghost loops: set<HirId>, ghost nested: set<HirId>)
      requires StmtScoped(stmt, loops, nested) && Between(nested, loops)
      modifies this
      ensures Between(nested, loops)
      ensures hasEscape <==> old(hasEscape) || StmtEscapes(stmt, nested)
      decreases stmt, 0
    {
      match stmt
      case ExprStmt(e) => VisitExpr(e, loops, nested);
      case Let(_, init, els) =>
        if init.Some? {
          VisitExpr(init.value, loops, nested);
        }
        if els.Some? {
          VisitBlock(els.value, loops, nested);
        }
      case Item =>
    }
  }

  /** Remembering left loops makes no difference when labels are scoped. */
  method LoopBodyHasNoEscape(body: Block, ghost loops: set<HirId>) returns (none: bool)
    requires BlockScoped(body, loops, {})
    ensures none <==> !BlockEscapes(body, {})
  {
    var visitor := new EscapeVisitor();
    visitor.VisitBlock(body, loops, {});
    none := !visitor.hasEscape;
  }

  /** The decision for one loop: a reported loop never finishes, unless it continues a loop around it. */
  method CheckLoop(loop: Expr, ghost loops: set<HirId>) returns (report: bool)
    requires loop.Loop? && BlockScoped(loop.body, loops, {})
    ensures report <==> loop.source == BareLoop && !loop.fromExpansion && !BlockEscapes(loop.body, {})
    ensures report && BlockContinues(loop.body, {}) <= {loop.loopId} ==>
              forall s, fuel: nat :: Eval(loop, s, fuel).0 in {OutOfFuel, Panicked, DivByZero, Stuck}
  {
    report := false;
    if loop.source == BareLoop && !loop.fromExpansion {
      report := LoopBodyHasNoEscape(loop.body, loops);
    }
    if report {
      forall s, fuel: nat
        ensures BlockContinues(loop.body, {}) <= {loop.loopId} ==>
            Eval(loop, s, fuel).0 in {OutOfFuel, Panicked, DivByZero, Stuck}
      {
        EscapeFreeLoopNeverFinishes(loop, s, fuel);
      }
    }
  }
}
