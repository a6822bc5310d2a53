/** Expressions of a function body and what running them does. Locals are never reassigned and
    collections never mutated; what a run cannot know from the body (results of calls, pattern
    matches) comes from a tape, so a statement about every tape is one about every run. What operators
    and casts mean on values other than integers and booleans is given by a world of fixed functions. */
module Hir {
  import opened Options

  type HirId = nat

  datatype IntTy = IntTy(bits: nat, signed: bool)

  datatype UnOp = Not | Neg | Deref
  datatype BinOp = Add | Sub | Mul | Div | Rem | Shl | And | Or | Eq | Ne | Lt | Le | Gt | Ge | OtherOp(code: nat)
  datatype Method = Len | IsEmpty | Max | Clamp | OtherMethod
  datatype LoopSource = BareLoop | WhileOrFor

  /** Operators carry the type of their operands if these are integers, casts the type they lead to if that is an
      integer type. A method call says whether it calls the standard integer method (`max`, `clamp`) or
      collection method (`len`, `is_empty`) of that name, and calls say whether they have type `!`. */
  datatype Expr =
    | Int(intValue: nat)
    | Bool(boolValue: bool)
    | OtherLit(code: int)
    | Local(id: HirId)
    | Const(constValue: Value)
    | Field(base: Expr, field: nat)
    | Unary(unop: UnOp, operandTy: Option<IntTy>, operand: Expr)
    | Binary(op: BinOp, ty: Option<IntTy>, lhs: Expr, rhs: Expr)
    | Cast(inner: Expr, target: Option<IntTy>)
    | DropTemps(inner: Expr)
    | If(cond: Expr, thenBranch: Expr, elseBranch: Option<Expr>)
    | Match(scrutinee: Expr, arms: seq<Expr>)
    | BlockExpr(blockLabel: Option<HirId>, block: Block)
    | Loop(loopId: HirId, body: Block, source: LoopSource, fromExpansion: bool)
    | Break(dest: HirId, value: Option<Expr>)
    | Continue(dest: HirId)
    | Ret(value: Option<Expr>)
    | Call(args: seq<Expr>, never: bool)
    | MethodCall(name: Method, standard: bool, receiver: Expr, args: seq<Expr>, never: bool)

  datatype Block = Block(stmts: seq<Stmt>, tail: Option<Expr>)

  datatype Stmt = ExprStmt(expr: Expr) | Let(binding: Option<HirId>, init: Option<Expr>, els: Option<Block>) | Item

  // ----- values and outcomes -----

  /** Collections have a 32-bit length. */
  type Length = n: nat | n < 0x1_0000_0000

  /** `VOther` is a value of any other type: a character, a float, an enum, a number of a library type. */
  datatype Value =
    | VInt(n: int)
    | VBool(b: bool)
    | VColl(len: Length)
    | VRec(fields: map<nat, Value>)
    | VUnit
    | VOther(code: int)

  /** What operators and casts do with values that are neither integers nor booleans; `None` is a panic. */
  datatype World = World(
    compare: (BinOp, Value, Value) -> bool,
    operate: (BinOp, Value, Value) -> Option<Value>,
    invert: (UnOp, Value) -> Option<Value>,
    toInt: (Value, IntTy) -> int,
    convert: Value -> Value)

  /** How an expression ends: with a value, by a jump, by an explicit diverging call, by an implicit
      panic, by a division by zero, out of fuel, or stuck: at a step that
      type checking excludes, or on a tape that has no answer. */
  datatype Outcome =
    | Val(v: Value)
    | Brk(dest: HirId, v: Value)
    | Cont(dest: HirId)
    | Returned
    | Aborted
    | Panicked
    | DivByZero
    | OutOfFuel
    | Stuck

  datatype State = State(env: map<HirId, Value>, tape: seq<Value>, world: World)

  function Pow2(k: nat): (p: nat)
    ensures p > 0
  {
    if k == 0 then 1 else 2 * Pow2(k - 1)
  }

  /** Two's complement: the value of the low `bits` bits of `n`. */
  function Wrap(n: int, ty: IntTy): int {
    var m := n % Pow2(ty.bits);
    if ty.signed && ty.bits > 0 && m >= Pow2(ty.bits - 1) then m - Pow2(ty.bits) else m
  }

  predicate InRange(n: int, ty: IntTy) {
    Wrap(n, ty) == n
  }

  /** Truncating division, with the sign of the exact quotient. */
  function TruncDiv(a: int, b: int): int
    requires b != 0
  {
    var q := (if a < 0 then -a else a) / (if b < 0 then -b else b);
    if (a < 0) == (b < 0) then q else -q
  }

  function Checked(n: int, ty: IntTy): Outcome {
    if InRange(n, ty) then Val(VInt(n)) else Panicked
  }

  function OrPanic(v: Option<Value>): Outcome {
    if v.Some? then Val(v.value) else Panicked
  }

  function ShiftLeft(ty: IntTy, a: int, k: int): Outcome {
    if 0 <= k < ty.bits then Val(VInt(Wrap(a * Pow2(k), ty))) else Panicked
  }

  function Arithmetic(w: World, op: BinOp, ty: IntTy, a: int, b: int): Outcome {
    match op
    case Add => Checked(a + b, ty)
    case Sub => Checked(a - b, ty)
    case Mul => Checked(a * b, ty)
    case Div => if b == 0 then DivByZero else Checked(TruncDiv(a, b), ty)
    case Rem =>
      if b == 0 then DivByZero
      else if InRange(TruncDiv(a, b), ty) then Val(VInt(a - b * TruncDiv(a, b)))
      else Panicked
    case Shl => ShiftLeft(ty, a, b)
    case Eq => Val(VBool(a == b))
    case Ne => Val(VBool(a != b))
    case Lt => Val(VBool(a < b))
    case Le => Val(VBool(a <= b))
    case Gt => Val(VBool(a > b))
    case Ge => Val(VBool(a >= b))
    case _ => OrPanic(w.operate(op, VInt(a), VInt(b)))
  }

  predicate IsComparison(op: BinOp) {
    op in {Eq, Ne, Lt, Le, Gt, Ge}
  }

  function CompareBools(op: BinOp, a: bool, b: bool): bool {
    match op
    case Eq => a == b
    case Ne => a != b
    case Lt => !a && b
    case Le => !a || b
    case Gt => a && !b
    case _ => a || !b
  }

  /** Operators on integers have an integer type; only ill-typed expressions are stuck. */
  function ApplyBinary(w: World, op: BinOp, ty: Option<IntTy>, a: Value, b: Value): Outcome {
    if ty.Some? then (if a.VInt? && b.VInt? then Arithmetic(w, op, ty.value, a.n, b.n) else Stuck)
    else if a.VInt? && b.VInt? then Stuck
    else if IsComparison(op) then
      Val(VBool(if a.VBool? && b.VBool? then CompareBools(op, a.b, b.b) else w.compare(op, a, b)))
    else OrPanic(w.operate(op, a, b))
  }

  function ApplyUnary(w: World, op: UnOp, ty: Option<IntTy>, a: Value): Outcome {
    match op
    case Deref => Val(a)
    case Not =>
      if ty.Some? then (if a.VInt? then Val(VInt(Wrap(-a.n - 1, ty.value))) else Stuck)
      else if a.VBool? then Val(VBool(!a.b))
      else if a.VInt? then Stuck
      else OrPanic(w.invert(op, a))
    case Neg =>
      if ty.Some? then (if a.VInt? then Checked(-a.n, ty.value) else Stuck)
      else if a.VInt? then Stuck
      else OrPanic(w.invert(op, a))
  }

  function ApplyCast(w: World, a: Value, target: Option<IntTy>): Value {
    if target.None? then w.convert(a)
    else
      match a
      case VInt(n) => VInt(Wrap(n, target.value))
      case VBool(b) => VInt(Wrap(if b then 1 else 0, target.value))
      case _ => VInt(Wrap(w.toInt(a, target.value), target.value))
  }

  /** The next unknown value. */
  function Next(s: State): (Outcome, State) {
    if s.tape == [] then (Stuck, s) else (Val(s.tape[0]), s.(tape := s.tape[1..]))
  }

  /** Standard methods; `clamp` panics on an empty range. */
  function ApplyMethod(m: Method, recv: Value, args: seq<Value>, s: State): (Outcome, State) {
    match m
    case Len => (if recv.VColl? && args == [] then Val(VInt(recv.len)) else Stuck, s)
    case IsEmpty => (if recv.VColl? && args == [] then Val(VBool(recv.len == 0)) else Stuck, s)
    case Max =>
      (if recv.VInt? && |args| == 1 && args[0].VInt? then
         Val(VInt(if recv.n < args[0].n then args[0].n else recv.n))
       else Stuck, s)
    case Clamp =>
      (if recv.VInt? && |args| == 2 && args[0].VInt? && args[1].VInt? then
         (if args[0].n > args[1].n then Panicked
          else Val(VInt(if recv.n < args[0].n then args[0].n else if recv.n > args[1].n then args[1].n else recv.n)))
       else Stuck, s)
    case OtherMethod => Next(s)
  }

  // ----- running -----

  datatype ArgsOutcome = Vals(vs: seq<Value>) | Halt(outcome: Outcome)

  function Eval(e: Expr, s: State, fuel: nat): (Outcome, State)
    decreases fuel, e, 1
  {
    match e
    case Int(n) => (Val(VInt(n)), s)
    case Bool(b) => (Val(VBool(b)), s)
    case Local(id) => (if id in s.env then Val(s.env[id]) else Stuck, s)
    case OtherLit(code) => (Val(VOther(code)), s)
    case Const(v) => (Val(v), s)
    case Field(base, field) =>
      var (o, s1) := Eval(base, s, fuel);
      if !o.Val? then (o, s1)
      else (if o.v.VRec? && field in o.v.fields then Val(o.v.fields[field]) else Stuck, s1)
    case Unary(op, ty, operand) =>
      var (o, s1) := Eval(operand, s, fuel);
      if !o.Val? then (o, s1) else (ApplyUnary(s.world, op, ty, o.v), s1)
    case Binary(op, ty, lhs, rhs) =>
      var (o, s1) := Eval(lhs, s, fuel);
      if !o.Val? then (o, s1)
      else if op == And || op == Or then
        (if !o.v.VBool? then (Stuck, s1)
         else if o.v.b == (op == Or) then (o, s1)
         else Eval(rhs, s1, fuel))
      else
        var (o2, s2) := Eval(rhs, s1, fuel);
        if !o2.Val? then (o2, s2) else (ApplyBinary(s.world, op, ty, o.v, o2.v), s2)
    case Cast(inner, target) =>
      var (o, s1) := Eval(inner, s, fuel);
      if !o.Val? then (o, s1) else (Val(ApplyCast(s.world, o.v, target)), s1)
    case DropTemps(inner) => Eval(inner, s, fuel)
    case If(cond, thenBranch, elseBranch) =>
      var (o, s1) := Eval(cond, s, fuel);
      if !o.Val? then (o, s1)
      else if !o.v.VBool? then (Stuck, s1)
      else if o.v.b then Eval(thenBranch, s1, fuel)
      else if elseBranch.Some? then Eval(elseBranch.value, s1, fuel)
      else (Val(VUnit), s1)
    case Match(scrutinee, arms) =>
      var (o, s1) := Eval(scrutinee, s, fuel);
      if !o.Val? then (o, s1)
      else
        var (choice, s2) := Next(s1);
        if choice.Val? && choice.v.VInt? && 0 <= choice.v.n < |arms| then Eval(arms[choice.v.n], s2, fuel)
        else (Stuck, s2)
    case BlockExpr(name, block) =>
      var (o, s1) := EvalBlock(block, s, fuel);
      (if o.Brk? && name == Some(o.dest) then Val(o.v) else o, s1)
    case Loop(id, body, _, _) =>
      var (o, s1) := EvalBlock(body, s, fuel);
      if o.Brk? && o.dest == id then (Val(o.v), s1)
      else if o.Val? || o == Cont(id) then
        (if fuel == 0 then (OutOfFuel, s1) else Eval(e, s1, fuel - 1))
      else (o, s1)
    case Break(dest, value) =>
      if value.None? then (Brk(dest, VUnit), s)
      else
        var (o, s1) := Eval(value.value, s, fuel);
        if !o.Val? then (o, s1) else (Brk(dest, o.v), s1)
    case Continue(dest) => (Cont(dest), s)
    case Ret(value) =>
      if value.None? then (Returned, s)
      else
        var (o, s1) := Eval(value.value, s, fuel);
        if !o.Val? then (o, s1) else (Returned, s1)
    case Call(args, never) =>
      var (vs, s1) := EvalArgs(args, s, fuel);
      if vs.Halt? then (vs.outcome, s1) else if never then (Aborted, s1) else Next(s1)
    case MethodCall(m, standard, receiver, args, never) =>
      var (o, s1) := Eval(receiver, s, fuel);
      if !o.Val? then (o, s1)
      else
        var (vs, s2) := EvalArgs(args, s1, fuel);
        if vs.Halt? then (vs.outcome, s2) else if never then (Aborted, s2)
        else if standard then ApplyMethod(m, o.v, vs.vs, s2)
        else Next(s2)
  }

  /** Arguments left to right; all values, or the first outcome that is not one. */
  function EvalArgs(args: seq<Expr>, s: State, fuel: nat): (r: (ArgsOutcome, State))
    ensures if r.0.Vals? then |r.0.vs| == |args| else !r.0.outcome.Val?
    decreases fuel, args, 0
  {
    if args == [] then (Vals([]), s)
    else
      var (o, s1) := Eval(args[0], s, fuel);
      if !o.Val? then (Halt(o), s1)
      else
        var (rest, s2) := EvalArgs(args[1..], s1, fuel);
        (if rest.Halt? then rest else Vals([o.v] + rest.vs), s2)
  }

  function EvalBlock(block: Block, s: State, fuel: nat): (Outcome, State)
    decreases fuel, block, 0
  {
    var (o, s1) := EvalStmts(block.stmts, s, fuel);
    if !o.Val? || block.tail.None? then (o, s1) else Eval(block.tail.value, s1, fuel)
  }

  function EvalStmts(stmts: seq<Stmt>, s: State, fuel: nat): (Outcome, State)
    decreases fuel, stmts, 0
  {
    if stmts == [] then (Val(VUnit), s)
    else
      var (o, s1) := EvalStmt(stmts[0], s, fuel);
      if !o.Val? then (o, s1) else EvalStmts(stmts[1..], s1, fuel)
  }

  /** A `let` of a plain binding always matches; any other pattern with an `else` block asks the tape.
      The `else` block must not fall through. */
  function EvalStmt(stmt: Stmt, s: State, fuel: nat): (Outcome, State)
    decreases fuel, stmt, 0
  {
    match stmt
    case ExprStmt(e) => Eval(e, s, fuel)
    case Item => (Val(VUnit), s)
    case Let(_, None, _) => (Val(VUnit), s)
    case Let(Some(id), Some(init), _) =>
      var (o, s1) := Eval(init, s, fuel);
      if !o.Val? then (o, s1) else (Val(VUnit), s1.(env := s1.env[id := o.v]))
    case Let(None, Some(init), els) =>
      var (o, s1) := Eval(init, s, fuel);
      if !o.Val? then (o, s1)
      else if els.None? then (Val(VUnit), s1)
      else
        var (matched, s2) := Next(s1);
        if matched == Val(VBool(true)) then (Val(VUnit), s2)
        else if matched == Val(VBool(false)) then
          var (o3, s3) := EvalBlock(els.value, s2, fuel);
          (if o3.Val? then Stuck else o3, s3)
        else (Stuck, s2)
  }
}
