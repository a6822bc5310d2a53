/** The parts of an expression, and the paths that lead to what is inside it. */
module HirParts {
  import opened Options
  import opened Hir

  /** `part` is an expression directly inside `e`, in one of its blocks if it has any. */
  predicate IsPart(e: Expr, part: Expr) {
    match e
    case Field(base, _) => part == base
    case Unary(_, _, x) => part == x
    case Binary(_, _, l, r) => part == l || part == r
    case Cast(x, _) => part == x
    case DropTemps(x) => part == x
    case If(c, x, y) => part == c || part == x || y == Some(part)
    case Match(x, arms) => part == x || part in arms
    case BlockExpr(_, block) => InBlock(block, part)
    case Loop(_, body, _, _) => InBlock(body, part)
    case Break(_, value) => value == Some(part)
    case Ret(value) => value == Some(part)
    case Call(args, _) => part in args
    case MethodCall(_, _, receiver, args, _) => part == receiver || part in args
    case _ => false
  }

  predicate InBlock(block: Block, part: Expr)
    decreases block, 0
  {
    (exists i :: 0 <= i < |block.stmts| && InStmt(block.stmts[i], part)) || block.tail == Some(part)
  }

  predicate InStmt(stmt: Stmt, part: Expr)
    decreases stmt, 0
  {
    match stmt
    case ExprStmt(e) => part == e
    case Let(_, init, els) => init == Some(part) || (els.Some? && InBlock(els.value, part))
    case Item => false
  }

  lemma PartIsSmaller(e: Expr, part: Expr)
    requires IsPart(e, part)
    ensures part < e
  {
    match e
    case BlockExpr(_, block) => BlockPartIsSmaller(block, part);
    case Loop(_, body, _, _) => BlockPartIsSmaller(body, part);
    case _ =>
  }

  lemma {:induction false} BlockPartIsSmaller(block: Block, part: Expr)
    requires InBlock(block, part)
    ensures part < block
    decreases block, 0
  {
    if block.tail != Some(part) {
      var i :| 0 <= i < |block.stmts| && InStmt(block.stmts[i], part);
      match block.stmts[i]
      case Let(_, init, Some(els)) =>
        if init != Some(part) {
          BlockPartIsSmaller(els, part);
        }
      case _ =>
    }
  }

  /** From an expression down to something inside it, one part at a time. */
  ghost predicate IsPartPath(path: seq<Expr>, e: Expr) {
    path != [] && path[0] == e && forall i :: 0 <= i < |path| - 1 ==> IsPart(path[i], path[i + 1])
  }

  /** The loops that the path goes into. */
  function LoopsEntered(path: seq<Expr>): set<HirId> {
    set i | 0 <= i < |path| - 1 && path[i].Loop? :: path[i].loopId
  }

  function LoopOf(e: Expr): set<HirId> {
    if e.Loop? then {e.loopId} else {}
  }

  lemma PathTail(path: seq<Expr>, e: Expr)
    requires IsPartPath(path, e) && |path| > 1
    ensures IsPart(e, path[1]) && IsPartPath(path[1..], path[1])
    ensures LoopsEntered(path) == LoopOf(e) + LoopsEntered(path[1..])
  {
    EnteredTail(path);
  }

  lemma PathBefore(path: seq<Expr>, part: Expr, e: Expr)
    requires IsPartPath(path, part) && IsPart(e, part)
    ensures IsPartPath([e] + path, e) && LoopsEntered([e] + path) == LoopOf(e) + LoopsEntered(path)
  {
    assert ([e] + path)[1..] == path;
    EnteredTail([e] + path);
  }

  lemma EnteredTail(path: seq<Expr>)
    requires |path| > 1
    ensures LoopsEntered(path) == LoopOf(path[0]) + LoopsEntered(path[1..])
  {
    forall id
      ensures id in LoopsEntered(path) <==> id in LoopOf(path[0]) + LoopsEntered(path[1..])
    {
      if id in LoopsEntered(path) {
        var i :| 0 <= i < |path| - 1 && path[i].Loop? && path[i].loopId == id;
        assert i > 0 ==> path[1..][i - 1] == path[i];
      }
      if id in LoopsEntered(path[1..]) {
        var i :| 0 <= i < |path[1..]| - 1 && path[1..][i].Loop? && path[1..][i].loopId == id;
        assert path[i + 1] == path[1..][i];
      }
    }
  }
}
