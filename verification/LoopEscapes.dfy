/** What counts as an escape from a loop, and as a `continue` around it: something at the end of a path of parts. */
module LoopEscapes {
  import opened Options
  import opened Hir
  import opened HirParts
  import opened NonTerminatingLoop

  // ----- escapes -----

  /** A `return`, a call of type `!`, or a `break` out of all the loops it is in. */
  predicate Leaves(e: Expr, loops: set<HirId>) {
    e.Ret? || (e.Call? && e.never) || (e.MethodCall? && e.never) || (e.Break? && e.dest !in loops)
  }

  ghost predicate EscapesAlong(path: seq<Expr>, e: Expr, nested: set<HirId>) {
    IsPartPath(path, e) && Leaves(path[|path| - 1], nested + LoopsEntered(path))
  }

  ghost predicate EscapeInPart(e: Expr, part: Expr, nested: set<HirId>) {
    IsPart(e, part) && HasEscape(part, nested + LoopOf(e))
  }

  ghost predicate EscapeOfBlock(block: Block, part: Expr, nested: set<HirId>) {
    InBlock(block, part) && HasEscape(part, nested)
  }

  ghost predicate EscapeOfStmt(stmt: Stmt, part: Expr, nested: set<HirId>) {
    InStmt(stmt, part) && HasEscape(part, nested)
  }

  ghost predicate EscapeOfArg(args: seq<Expr>, i: nat, nested: set<HirId>)
    requires i < |args|
  {
    HasEscape(args[i], nested)
  }

  lemma EscapeStep(e: Expr, nested: set<HirId>)
    ensures HasEscape(e, nested) <==> Leaves(e, nested) || exists part :: EscapeInPart(e, part, nested)
  {
    assert !e.Loop? ==> nested + LoopOf(e) == nested;
    match e
    case Field(base, _) => assert EscapeInPart(e, base, nested) == HasEscape(base, nested);
    case Unary(_, _, x) => assert EscapeInPart(e, x, nested) == HasEscape(x, nested);
    case Binary(_, _, l, r) =>
      assert EscapeInPart(e, l, nested) == HasEscape(l, nested);
      assert EscapeInPart(e, r, nested) == HasEscape(r, nested);
    case Cast(x, _) => assert EscapeInPart(e, x, nested) == HasEscape(x, nested);
    case DropTemps(x) => assert EscapeInPart(e, x, nested) == HasEscape(x, nested);
    case If(c, x, y) =>
      assert EscapeInPart(e, c, nested) == HasEscape(c, nested);
      assert EscapeInPart(e, x, nested) == HasEscape(x, nested);
      assert y.Some? ==> EscapeInPart(e, y.value, nested) == HasEscape(y.value, nested);
    case Match(x, arms) =>
      assert EscapeInPart(e, x, nested) == HasEscape(x, nested);
      EscapeInArgs(e, arms, nested);
    case BlockExpr(_, block) => EscapeInBlockOf(e, block, nested);
    case Loop(_, body, _, _) => EscapeInBlockOf(e, body, nested);
    case Break(_, value) =>
      assert value.Some? ==> EscapeInPart(e, value.value, nested) == HasEscape(value.value, nested);
    case Ret(value) =>
      assert value.Some? ==> EscapeInPart(e, value.value, nested) == HasEscape(value.value, nested);
    case Call(args, _) => EscapeInArgs(e, args, nested);
    case MethodCall(_, _, receiver, args, _) =>
      assert EscapeInPart(e, receiver, nested) == HasEscape(receiver, nested);
      EscapeInArgs(e, args, nested);
    case _ =>
  }

  lemma EscapeInBlockOf(e: Expr, block: Block, nested: set<HirId>)
    requires (e.BlockExpr? && e.block == block) || (e.Loop? && e.body == block)
    ensures BlockEscapes(block, nested + LoopOf(e)) <==> exists part :: EscapeInPart(e, part, nested)
  {
    EscapeInBlock(block, nested + LoopOf(e));
    if part :| EscapeOfBlock(block, part, nested + LoopOf(e)) {
      assert EscapeInPart(e, part, nested);
    }
    if part :| EscapeInPart(e, part, nested) {
      assert EscapeOfBlock(block, part, nested + LoopOf(e));
    }
  }

  lemma EscapeInArgs(e: Expr, args: seq<Expr>, nested: set<HirId>)
    requires !e.Loop? && forall part :: part in args ==> IsPart(e, part)
    ensures ArgsEscape(args, nested) ==> exists part :: EscapeInPart(e, part, nested)
    ensures forall part :: part in args && EscapeInPart(e, part, nested) ==> ArgsEscape(args, nested)
  {
    assert nested + LoopOf(e) == nested;
    EscapeAtIndex(args, nested);
    if i: nat :| i < |args| && EscapeOfArg(args, i, nested) {
      assert EscapeInPart(e, args[i], nested);
    }
    forall part | part in args && EscapeInPart(e, part, nested)
      ensures ArgsEscape(args, nested)
    {
      var i: nat :| i < |args| && args[i] == part;
      assert EscapeOfArg(args, i, nested);
    }
  }

  lemma {:induction false} EscapeAtIndex(args: seq<Expr>, nested: set<HirId>)
    ensures ArgsEscape(args, nested) <==> exists i: nat :: i < |args| && EscapeOfArg(args, i, nested)
  {
    if args != [] {
      EscapeAtIndex(args[1..], nested);
      if i: nat :| i < |args| - 1 && EscapeOfArg(args[1..], i, nested) {
        assert EscapeOfArg(args, i + 1, nested);
      }
      if i: nat :| i < |args| && EscapeOfArg(args, i, nested) {
        assert i > 0 ==> EscapeOfArg(args[1..], i - 1, nested);
      }
      assert EscapeOfArg(args, 0, nested) == HasEscape(args[0], nested);
    }
  }

  lemma {:induction false} EscapeInBlock(block: Block, nested: set<HirId>)
    ensures BlockEscapes(block, nested) <==> exists part :: EscapeOfBlock(block, part, nested)
    decreases block, 0
  {
    EscapeInStmts(block.stmts, nested);
    if i: nat, part :| i < |block.stmts| && EscapeOfStmt(block.stmts[i], part, nested) {
      assert EscapeOfBlock(block, part, nested);
    }
    if part :| EscapeOfBlock(block, part, nested) {
      if block.tail != Some(part) {
        var i :| 0 <= i < |block.stmts| && InStmt(block.stmts[i], part);
        assert EscapeOfStmt(block.stmts[i], part, nested);
      }
    }
    assert block.tail.Some? ==> EscapeOfBlock(block, block.tail.value, nested) == HasEscape(block.tail.value, nested);
  }

  lemma {:induction false} EscapeInStmts(stmts: seq<Stmt>, nested: set<HirId>)
    ensures StmtsEscape(stmts, nested) <==>
            exists i: nat, part :: i < |stmts| && EscapeOfStmt(stmts[i], part, nested)
    decreases stmts, 0
  {
    if stmts != [] {
      EscapeInStmt(stmts[0], nested);
      EscapeInStmts(stmts[1..], nested);
      if part :| EscapeOfStmt(stmts[0], part, nested) {
        assert EscapeOfStmt(stmts[0], part, nested);
      }
      if i: nat, part :| i < |stmts| - 1 && EscapeOfStmt(stmts[1..][i], part, nested) {
        assert EscapeOfStmt(stmts[i + 1], part, nested);
      }
      if i: nat, part :| i < |stmts| && EscapeOfStmt(stmts[i], part, nested) {
        assert i > 0 ==> EscapeOfStmt(stmts[1..][i - 1], part, nested);
      }
    }
  }

  lemma {:induction false} EscapeInStmt(stmt: Stmt, nested: set<HirId>)
    ensures StmtEscapes(stmt, nested) <==> exists part :: EscapeOfStmt(stmt, part, nested)
    decreases stmt, 0
  {
    match stmt
    case ExprStmt(e) => assert EscapeOfStmt(stmt, e, nested) == HasEscape(e, nested);
    case Let(_, init, els) =>
      assert init.Some? ==> EscapeOfStmt(stmt, init.value, nested) == HasEscape(init.value, nested);
      if els.Some? {
        EscapeInBlock(els.value, nested);
        if part :| EscapeOfBlock(els.value, part, nested) {
          assert EscapeOfStmt(stmt, part, nested);
        }
        if part :| EscapeOfStmt(stmt, part, nested) {
          assert init == Some(part) || EscapeOfBlock(els.value, part, nested);
        }
      }
    case Item =>
  }

  lemma {:induction false} PathIsEscape(e: Expr, nested: set<HirId>, path: seq<Expr>)
    requires EscapesAlong(path, e, nested)
    ensures HasEscape(e, nested)
    decreases |path|
  {
    EscapeStep(e, nested);
    if |path| == 1 {
      assert nested + LoopsEntered(path) == nested;
    } else {
      PathTail(path, e);
      assert nested + LoopOf(e) + LoopsEntered(path[1..]) == nested + LoopsEntered(path);
      PathIsEscape(path[1], nested + LoopOf(e), path[1..]);
      assert EscapeInPart(e, path[1], nested);
    }
  }

  lemma {:induction false} EscapeHasPath(e: Expr, nested: set<HirId>) returns (path: seq<Expr>)
    requires HasEscape(e, nested)
    ensures EscapesAlong(path, e, nested)
    decreases e
  {
    EscapeStep(e, nested);
    if Leaves(e, nested) {
      path := [e];
      assert nested + LoopsEntered(path) == nested;
    } else {
      var part :| EscapeInPart(e, part, nested);
      PartIsSmaller(e, part);
      var rest := EscapeHasPath(part, nested + LoopOf(e));
      PathBefore(rest, part, e);
      path := [e] + rest;
      assert nested + LoopsEntered(path) == nested + LoopOf(e) + LoopsEntered(rest);
    }
  }

  /** An expression holds an escape exactly when a path of parts leads to a `return`, to a call of type `!`, or to a
      `break` whose target is neither one of the given loops nor one that the path goes into. */
  lemma EscapeMeaning(e: Expr, nested: set<HirId>)
    ensures HasEscape(e, nested) <==> exists path :: EscapesAlong(path, e, nested)
  {
    if HasEscape(e, nested) {
      var path := EscapeHasPath(e, nested);
    }
    if path :| EscapesAlong(path, e, nested) {
      PathIsEscape(e, nested, path);
    }
  }

  /** The same for the body of a loop, from which a `break` of the loop itself is an escape. */
  lemma BodyEscapeMeaning(body: Block)
    ensures BlockEscapes(body, {}) <==> exists part, path :: InBlock(body, part) && EscapesAlong(path, part, {})
  {
    EscapeInBlock(body, {});
    if part :| EscapeOfBlock(body, part, {}) {
      var path := EscapeHasPath(part, {});
      assert EscapesAlong(path, part, {});
    }
    if part, path :| InBlock(body, part) && EscapesAlong(path, part, {}) {
      PathIsEscape(part, {}, path);
      assert EscapeOfBlock(body, part, {});
    }
  }

  // ----- continues -----

  ghost predicate ContinuesAlong(path: seq<Expr>, e: Expr, nested: set<HirId>, dest: HirId) {
    IsPartPath(path, e) && path[|path| - 1] == Continue(dest) && dest !in nested + LoopsEntered(path)
  }

  /** Every listed `continue` is at the end of some path, and names a loop that is neither given nor on the path. */
  lemma {:induction false} ContinueHasPath(e: Expr, nested: set<HirId>, dest: HirId) returns (path: seq<Expr>)
    requires dest in Continues(e, nested)
    ensures ContinuesAlong(path, e, nested, dest)
    decreases e, 1
  {
    if e.Continue? {
      path := [e];
      assert LoopsEntered(path) == {};
    } else {
      var part, rest := ContinueInPart(e, nested, dest);
      PathBefore(rest, part, e);
      path := [e] + rest;
      assert nested + LoopsEntered(path) == nested + LoopOf(e) + LoopsEntered(rest);
    }
  }

  lemma {:induction false} ContinueInPart(e: Expr, nested: set<HirId>, dest: HirId)
      returns (part: Expr, path: seq<Expr>)
    requires !e.Continue? && dest in Continues(e, nested)
    ensures IsPart(e, part) && ContinuesAlong(path, part, nested + LoopOf(e), dest)
    decreases e, 0
  {
    assert !e.Loop? ==> nested + LoopOf(e) == nested;
    if e.BlockExpr? {
      part, path := ContinueInBlock(e.block, nested, dest);
    } else if e.Loop? {
      assert LoopOf(e) == {e.loopId};
      part, path := ContinueInBlock(e.body, nested + {e.loopId}, dest);
    } else if e.Call? || (e.Match? && dest in ArgsContinue(e.arms, nested)) {
      part, path := ContinueInArgs(if e.Call? then e.args else e.arms, nested, dest);
    } else if e.MethodCall? && dest in ArgsContinue(e.args, nested) {
      part, path := ContinueInArgs(e.args, nested, dest);
    } else {
      part := SinglePart(e, nested, dest);
      PartIsSmaller(e, part);
      path := ContinueHasPath(part, nested, dest);
    }
  }

  /** The part that holds the `continue`, if it is in no block and no list. */
  lemma SinglePart(e: Expr, nested: set<HirId>, dest: HirId) returns (part: Expr)
    requires !e.Continue? && !e.BlockExpr? && !e.Loop? && !e.Call? && dest in Continues(e, nested)
    requires e.Match? ==> dest !in ArgsContinue(e.arms, nested)
    requires e.MethodCall? ==> dest !in ArgsContinue(e.args, nested)
    ensures IsPart(e, part) && dest in Continues(part, nested)
  {
    match e
    case Field(base, _) => part := base;
    case Unary(_, _, x) => part := x;
    case Binary(_, _, l, r) => part := if dest in Continues(l, nested) then l else r;
    case Cast(x, _) => part := x;
    case DropTemps(x) => part := x;
    case If(c, x, y) =>
      part := if dest in Continues(c, nested) then c else if dest in Continues(x, nested) then x else y.value;
    case Match(x, _) => part := x;
    case Break(_, value) => part := value.value;
    case Ret(value) => part := value.value;
    case MethodCall(_, _, receiver, _, _) => part := receiver;
  }

  lemma {:induction false} ContinueInArgs(args: seq<Expr>, nested: set<HirId>, dest: HirId)
    returns (part: Expr, path: seq<Expr>)
    requires dest in ArgsContinue(args, nested)
    ensures part in args && ContinuesAlong(path, part, nested, dest)
    decreases args, 0
  {
    if dest in Continues(args[0], nested) {
      part := args[0];
      path := ContinueHasPath(part, nested, dest);
    } else {
      part, path := ContinueInArgs(args[1..], nested, dest);
    }
  }

  lemma {:induction false} ContinueInBlock(block: Block, nested: set<HirId>, dest: HirId)
    returns (part: Expr, path: seq<Expr>)
    requires dest in BlockContinues(block, nested)
    ensures InBlock(block, part) && ContinuesAlong(path, part, nested, dest)
    decreases block, 0
  {
    if dest in StmtsContinue(block.stmts, nested) {
      var i;
      i, part, path := ContinueInStmts(block.stmts, nested, dest);
    } else {
      part := block.tail.value;
      path := ContinueHasPath(part, nested, dest);
    }
  }

  lemma {:induction false} ContinueInStmts(stmts: seq<Stmt>, nested: set<HirId>, dest: HirId)
    returns (i: nat, part: Expr, path: seq<Expr>)
    requires dest in StmtsContinue(stmts, nested)
    ensures i < |stmts| && InStmt(stmts[i], part) && ContinuesAlong(path, part, nested, dest)
    decreases stmts, 0
  {
    if dest in StmtContinues(stmts[0], nested) {
      i := 0;
      part, path := ContinueInStmt(stmts[0], nested, dest);
    } else {
      i, part, path := ContinueInStmts(stmts[1..], nested, dest);
      i := i + 1;
    }
  }

  lemma {:induction false} ContinueInStmt(stmt: Stmt, nested: set<HirId>, dest: HirId)
    returns (part: Expr, path: seq<Expr>)
    requires dest in StmtContinues(stmt, nested)
    ensures InStmt(stmt, part) && ContinuesAlong(path, part, nested, dest)
    decreases stmt, 0
  {
    match stmt
    case ExprStmt(e) =>
      part := e;
      path := ContinueHasPath(e, nested, dest);
    case Let(_, init, els) =>
      if init.Some? && dest in Continues(init.value, nested) {
        part := init.value;
        path := ContinueHasPath(part, nested, dest);
      } else {
        part, path := ContinueInBlock(els.value, nested, dest);
      }
  }

  // ----- the report -----

  /** A path in the body leads to a `continue` of a loop around the loop. */
  ghost predicate ContinuesAround(loop: Expr, part: Expr, path: seq<Expr>, dest: HirId)
    requires loop.Loop?
  {
    InBlock(loop.body, part) && ContinuesAlong(path, part, {}, dest) && dest != loop.loopId
  }

  /** A loop is reported exactly when it is a bare, hand-written `loop` and no path in its body leads to an escape.
      A reported loop in whose body no path leads to a `continue` of a loop around it never finishes. */
  method ReportsLoop(loop: Expr, ghost loops: set<HirId>) returns (report: bool)
    requires loop.Loop? && BlockScoped(loop.body, loops, {})
    ensures report <==>
            && loop.source == BareLoop && !loop.fromExpansion
            && !exists part, path :: InBlock(loop.body, part) && EscapesAlong(path, part, {})
    ensures report && !(exists part, path, dest :: ContinuesAround(loop, part, path, dest)) ==>
              forall s, fuel: nat :: Eval(loop, s, fuel).0 in {OutOfFuel, Panicked, DivByZero, Stuck}
  {
    report := CheckLoop(loop, loops);
    BodyEscapeMeaning(loop.body);
    if !exists part, path, dest :: ContinuesAround(loop, part, path, dest) {
      forall dest | dest in BlockContinues(loop.body, {})
        ensures dest == loop.loopId
      {
        var part, path := ContinueInBlock(loop.body, {}, dest);
        assert !ContinuesAround(loop, part, path, dest);
      }
    }
  }
}
