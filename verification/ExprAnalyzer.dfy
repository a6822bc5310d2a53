/** Structural equivalence of expressions that looks through `let` bindings,
    under a guard against cyclic bindings. */
module ExprAnalyzer {
  import opened Options

  type HirId = nat

  /** An expression node. Literals, operators, types and definitions are compared by identity only. */
  datatype Expr = Expr(id: HirId, kind: Kind)
  datatype Kind =
    | Lit(node: int)
    | Local(local: HirId)
    | Def(res: nat)
    | TypeRelative
    | Binary(op: nat, lhs: Expr, rhs: Expr)
    | Unary(unop: nat, operand: Expr)
    | Cast(inner: Expr, ty: HirId)
    | DropTemps(temps: Expr)
    | Block(tail: Option<Expr>)
    | Other

  type Locals = map<HirId, Expr>
  type Pair = (HirId, HirId)

  function Size(e: Expr): (n: nat)
    ensures n > 0
  {
    match e.kind
    case Binary(_, l, r) => 1 + Size(l) + Size(r)
    case Unary(_, i) => 1 + Size(i)
    case Cast(i, _) => 1 + Size(i)
    case DropTemps(i) => 1 + Size(i)
    case Block(Some(t)) => 1 + Size(t)
    case _ => 1
  }

  /** A block that ends in an expression. */
  predicate Tailed(e: Expr) {
    e.kind.Block? && e.kind.tail.Some?
  }

  /** The id pairs whose unfolding the guard can stop. */
  ghost function Pairs(locals: Locals): set<Pair> {
    set a, b | a in locals && b in locals :: (a, b)
  }

  /** The comparison, as a function of the guard set. It is defined for every binding map,
      cyclic ones included: either a new pair enters the guard or the expressions shrink. */
  predicate Equivalent(locals: Locals, e1: Expr, e2: Expr, visited: set<Pair>)
    decreases Pairs(locals) - visited, Size(e1) + Size(e2)
  {
    if e1.id == e2.id then true
    else if e1.kind.DropTemps? && e2.kind.DropTemps? then Equivalent(locals, e1.kind.temps, e2.kind.temps, visited)
    else if e1.kind.DropTemps? then Equivalent(locals, e1.kind.temps, e2, visited)
    else if e2.kind.DropTemps? then Equivalent(locals, e1, e2.kind.temps, visited)
    else if Tailed(e1) then Equivalent(locals, e1.kind.tail.value, e2, visited)
    else if Tailed(e2) then Equivalent(locals, e1, e2.kind.tail.value, visited)
    else
      match e1.kind
      case Lit(n) => e2.kind == Lit(n)
      case Local(a) =>
        e2.kind.Local? &&
        var b := e2.kind.local;
        (a == b || ((a, b) !in visited && a in locals && b in locals &&
                     Equivalent(locals, locals[a], locals[b], visited + {(a, b)})))
      case Def(r) => e2.kind == Def(r)
      case Binary(op, l, r) =>
        && e2.kind.Binary? && op == e2.kind.op
        && Equivalent(locals, l, e2.kind.lhs, visited) && Equivalent(locals, r, e2.kind.rhs, visited)
      case Unary(op, x) => e2.kind.Unary? && op == e2.kind.unop && Equivalent(locals, x, e2.kind.operand, visited)
      case Cast(x, t) => e2.kind.Cast? && t == e2.kind.ty && Equivalent(locals, x, e2.kind.inner, visited)
      case _ => false
  }

  /** The guard set the analyzer threads through the recursion. */
  class Visited {
    var pairs: set<Pair>

    constructor ()
      ensures pairs == {}
    {
      pairs := {};
    }

    method Insert(key: Pair) returns (isNew: bool)
      modifies this
      ensures isNew <==> key !in old(pairs)
      ensures pairs == old(pairs) + {key}
    {
      isNew := key !in pairs;
      pairs := pairs + {key};
    }
  }

  class Analyzer {
    const locals: Locals

    constructor (locals: Locals)
      ensures this.locals == locals
    {
      this.locals := locals;
    }

    method AreEquivalent(e1: Expr, e2: Expr) returns (answer: bool)
      ensures answer <==> Equivalent(locals, e1, e2, {})
    {
      var visited := new Visited();
      answer := AreEquivalentImpl(e1, e2, visited);
    }

    /** Terminates on every binding map and leaves the guard set as it found it. */
    method AreEquivalentImpl(e1: Expr, e2: Expr, visited: Visited) returns (answer: bool)
      modifies visited
      ensures answer <==> Equivalent(locals, e1, e2, old(visited.pairs))
      ensures visited.pairs == old(visited.pairs)
      decreases Pairs(locals) - visited.pairs, Size(e1) + Size(e2), 1
    {
      if e1.id == e2.id {
        return true;
      }
      answer := false;
      if e1.kind.DropTemps? && e2.kind.DropTemps? {
        answer := AreEquivalentImpl(e1.kind.temps, e2.kind.temps, visited);
      } else if e1.kind.DropTemps? {
        answer := AreEquivalentImpl(e1.kind.temps, e2, visited);
      } else if e2.kind.DropTemps? {
        answer := AreEquivalentImpl(e1, e2.kind.temps, visited);
      } else if Tailed(e1) {
        answer := AreEquivalentImpl(e1.kind.tail.value, e2, visited);
      } else if Tailed(e2) {
        answer := AreEquivalentImpl(e1, e2.kind.tail.value, visited);
      } else if e1.kind.Lit? && e2.kind.Lit? {
        answer := e1.kind.node == e2.kind.node;
      } else if e1.kind.Local? && e2.kind.Local? {
        answer := ArePathsEquiv(e1.kind.local, e2.kind.local, visited, e1, e2);
      } else if e1.kind.Def? && e2.kind.Def? {
        answer := e1.kind.res == e2.kind.res;
      } else if e1.kind.Binary? && e2.kind.Binary? {
        if e1.kind.op == e2.kind.op {
          answer := AreEquivalentImpl(e1.kind.lhs, e2.kind.lhs, visited);
          if answer {
            answer := AreEquivalentImpl(e1.kind.rhs, e2.kind.rhs, visited);
          }
        }
      } else if e1.kind.Unary? && e2.kind.Unary? {
        if e1.kind.unop == e2.kind.unop {
          answer := AreEquivalentImpl(e1.kind.operand, e2.kind.operand, visited);
        }
      } else if e1.kind.Cast? && e2.kind.Cast? {
        if e1.kind.ty == e2.kind.ty {
          answer := AreEquivalentImpl(e1.kind.inner, e2.kind.inner, visited);
        }
      }
    }

    method ArePathsEquiv(a: HirId, b: HirId, visited: Visited, ghost e1: Expr, ghost e2: Expr) returns (answer: bool)
      requires e1.id != e2.id && e1.kind == Local(a) && e2.kind == Local(b)
      modifies visited
      ensures answer <==> Equivalent(locals, e1, e2, old(visited.pairs))
      ensures visited.pairs == old(visited.pairs)
      decreases Pairs(locals) - visited.pairs, Size(e1) + Size(e2), 0
    {
      if a == b {
        return true;
      }
      var isNew := visited.Insert((a, b));
      if !isNew {
        assert visited.pairs == old(visited.pairs);
        return false;
      }
      answer := false;
      if a in locals && b in locals {
        assert (a, b) in Pairs(locals) - old(visited.pairs);
        answer := AreEquivalentImpl(locals[a], locals[b], visited);
      }
      visited.pairs := visited.pairs - {(a, b)};
      assert visited.pairs == old(visited.pairs);
    }
  }

  // ----- what an answer means -----

  /** Values of everything the comparison does not look into. */
  datatype Interpretation<!V> = Interpretation(
    literal: int -> V,
    local: HirId -> V,
    global: nat -> V,
    binary: (nat, V, V) -> V,
    unary: (nat, V) -> V,
    cast: (V, HirId) -> V,
    opaqueNode: HirId -> V)

  function Eval<V>(i: Interpretation<V>, e: Expr): V {
    match e.kind
    case Lit(n) => i.literal(n)
    case Local(a) => i.local(a)
    case Def(r) => i.global(r)
    case Binary(op, l, r) => i.binary(op, Eval(i, l), Eval(i, r))
    case Unary(op, x) => i.unary(op, Eval(i, x))
    case Cast(x, t) => i.cast(Eval(i, x), t)
    case DropTemps(x) => Eval(i, x)
    case Block(Some(t)) => Eval(i, t)
    case _ => i.opaqueNode(e.id)
  }

  /** Every recorded local still holds the value of its initializer. */
  ghost predicate Unassigned<V>(i: Interpretation<V>, locals: Locals) {
    forall a :: a in locals ==> i.local(a) == Eval(i, locals[a])
  }

  /** Node ids are unique: `e` and everything in it is the node its id names. */
  ghost predicate InBody(hir: map<HirId, Expr>, e: Expr)
    decreases Size(e)
  {
    && e.id in hir && hir[e.id] == e
    && match e.kind
       case Binary(_, l, r) => InBody(hir, l) && InBody(hir, r)
       case Unary(_, x) => InBody(hir, x)
       case Cast(x, _) => InBody(hir, x)
       case DropTemps(x) => InBody(hir, x)
       case Block(Some(t)) => InBody(hir, t)
       case _ => true
  }

  ghost predicate LocalsInBody(hir: map<HirId, Expr>, locals: Locals) {
    forall a :: a in locals ==> InBody(hir, locals[a])
  }

  /** Equivalent expressions have the same value, whatever the operators, constants and opaque
      nodes mean, on every binding map and under every guard set. */
  lemma {:induction false} EquivalentIsSound<V>(i: Interpretation<V>, hir: map<HirId, Expr>, locals: Locals,
                                                e1: Expr, e2: Expr, visited: set<Pair>)
    requires Unassigned(i, locals) && LocalsInBody(hir, locals)
    requires InBody(hir, e1) && InBody(hir, e2)
    requires Equivalent(locals, e1, e2, visited)
    ensures Eval(i, e1) == Eval(i, e2)
    decreases Pairs(locals) - visited, Size(e1) + Size(e2)
  {
    if e1.id != e2.id {
      if e1.kind.DropTemps? && e2.kind.DropTemps? {
        EquivalentIsSound(i, hir, locals, e1.kind.temps, e2.kind.temps, visited);
      } else if e1.kind.DropTemps? {
        EquivalentIsSound(i, hir, locals, e1.kind.temps, e2, visited);
      } else if e2.kind.DropTemps? {
        EquivalentIsSound(i, hir, locals, e1, e2.kind.temps, visited);
      } else if Tailed(e1) {
        EquivalentIsSound(i, hir, locals, e1.kind.tail.value, e2, visited);
      } else if Tailed(e2) {
        EquivalentIsSound(i, hir, locals, e1, e2.kind.tail.value, visited);
      } else if e1.kind.Local? && e2.kind.Local? {
        var a, b := e1.kind.local, e2.kind.local;
        if a != b {
          assert (a, b) in Pairs(locals) - visited;
          EquivalentIsSound(i, hir, locals, locals[a], locals[b], visited + {(a, b)});
        }
      } else if e1.kind.Binary? && e2.kind.Binary? {
        EquivalentIsSound(i, hir, locals, e1.kind.lhs, e2.kind.lhs, visited);
        EquivalentIsSound(i, hir, locals, e1.kind.rhs, e2.kind.rhs, visited);
      } else if e1.kind.Unary? && e2.kind.Unary? {
        EquivalentIsSound(i, hir, locals, e1.kind.operand, e2.kind.operand, visited);
      } else if e1.kind.Cast? && e2.kind.Cast? {
        EquivalentIsSound(i, hir, locals, e1.kind.inner, e2.kind.inner, visited);
      }
    }
  }

  // ----- acyclic bindings: the guard is only a guard -----

  function Max(a: nat, b: nat): nat {
    if a < b then b else a
  }

  /** One more than the largest rank of a recorded local that `e` mentions. */
  ghost function Height(locals: Locals, rank: HirId -> nat, e: Expr): nat
    decreases Size(e)
  {
    match e.kind
    case Local(a) => if a in locals then rank(a) + 1 else 0
    case Binary(_, l, r) => Max(Height(locals, rank, l), Height(locals, rank, r))
    case Unary(_, x) => Height(locals, rank, x)
    case Cast(x, _) => Height(locals, rank, x)
    case DropTemps(x) => Height(locals, rank, x)
    case Block(Some(t)) => Height(locals, rank, t)
    case _ => 0
  }

  /** `rank` orders the locals so that an initializer mentions only earlier ones. */
  ghost predicate Ordered(locals: Locals, rank: HirId -> nat) {
    forall a :: a in locals ==> Height(locals, rank, locals[a]) <= rank(a)
  }

  /** The same recursion with no guard at all. */
  ghost predicate Unguarded(locals: Locals, rank: HirId -> nat, e1: Expr, e2: Expr)
    requires Ordered(locals, rank)
    decreases Height(locals, rank, e1) + Height(locals, rank, e2), Size(e1) + Size(e2)
  {
    if e1.id == e2.id then true
    else if e1.kind.DropTemps? && e2.kind.DropTemps? then Unguarded(locals, rank, e1.kind.temps, e2.kind.temps)
    else if e1.kind.DropTemps? then Unguarded(locals, rank, e1.kind.temps, e2)
    else if e2.kind.DropTemps? then Unguarded(locals, rank, e1, e2.kind.temps)
    else if Tailed(e1) then Unguarded(locals, rank, e1.kind.tail.value, e2)
    else if Tailed(e2) then Unguarded(locals, rank, e1, e2.kind.tail.value)
    else
      match e1.kind
      case Lit(n) => e2.kind == Lit(n)
      case Local(a) =>
        e2.kind.Local? &&
        var b := e2.kind.local;
        (a == b || (a in locals && b in locals && Unguarded(locals, rank, locals[a], locals[b])))
      case Def(r) => e2.kind == Def(r)
      case Binary(op, l, r) =>
        && e2.kind.Binary? && op == e2.kind.op
        && Unguarded(locals, rank, l, e2.kind.lhs) && Unguarded(locals, rank, r, e2.kind.rhs)
      case Unary(op, x) => e2.kind.Unary? && op == e2.kind.unop && Unguarded(locals, rank, x, e2.kind.operand)
      case Cast(x, t) => e2.kind.Cast? && t == e2.kind.ty && Unguarded(locals, rank, x, e2.kind.inner)
      case _ => false
  }

  /** Every guarded pair lies above what is still to be compared. */
  ghost predicate GuardedAbove(rank: HirId -> nat, visited: set<Pair>, h1: nat, h2: nat) {
    forall p: Pair :: p in visited ==> h1 <= rank(p.0) && h2 <= rank(p.1)
  }

  lemma {:induction false} GuardNeverFires(locals: Locals, rank: HirId -> nat, e1: Expr, e2: Expr, visited: set<Pair>)
    requires Ordered(locals, rank)
    requires GuardedAbove(rank, visited, Height(locals, rank, e1), Height(locals, rank, e2))
    ensures Equivalent(locals, e1, e2, visited) == Unguarded(locals, rank, e1, e2)
    decreases Height(locals, rank, e1) + Height(locals, rank, e2), Size(e1) + Size(e2)
  {
    if e1.id != e2.id {
      if e1.kind.DropTemps? && e2.kind.DropTemps? {
        GuardNeverFires(locals, rank, e1.kind.temps, e2.kind.temps, visited);
      } else if e1.kind.DropTemps? {
        GuardNeverFires(locals, rank, e1.kind.temps, e2, visited);
      } else if e2.kind.DropTemps? {
        GuardNeverFires(locals, rank, e1, e2.kind.temps, visited);
      } else if Tailed(e1) {
        GuardNeverFires(locals, rank, e1.kind.tail.value, e2, visited);
      } else if Tailed(e2) {
        GuardNeverFires(locals, rank, e1, e2.kind.tail.value, visited);
      } else if e1.kind.Local? && e2.kind.Local? {
        var a, b := e1.kind.local, e2.kind.local;
        if a in locals && b in locals {
          GuardNeverFires(locals, rank, locals[a], locals[b], visited + {(a, b)});
        }
      } else if e1.kind.Binary? && e2.kind.Binary? {
        GuardNeverFires(locals, rank, e1.kind.lhs, e2.kind.lhs, visited);
        GuardNeverFires(locals, rank, e1.kind.rhs, e2.kind.rhs, visited);
      } else if e1.kind.Unary? && e2.kind.Unary? {
        GuardNeverFires(locals, rank, e1.kind.operand, e2.kind.operand, visited);
      } else if e1.kind.Cast? && e2.kind.Cast? {
        GuardNeverFires(locals, rank, e1.kind.inner, e2.kind.inner, visited);
      }
    }
  }

  /** `e` without the drop-temps and tailed blocks around it. */
  function Peel(e: Expr): (r: Expr)
    ensures Size(r) <= Size(e)
    decreases Size(e)
  {
    match e.kind
    case DropTemps(x) => Peel(x)
    case Block(Some(t)) => Peel(t)
    case _ => e
  }

  predicate Peeled(e: Expr) {
    !e.kind.DropTemps? && !Tailed(e)
  }

  lemma {:induction false} PeelKeeps(hir: map<HirId, Expr>, locals: Locals, rank: HirId -> nat, e: Expr)
    requires InBody(hir, e)
    ensures InBody(hir, Peel(e)) && Peeled(Peel(e))
    ensures Height(locals, rank, Peel(e)) == Height(locals, rank, e)
    decreases Size(e)
  {
    match e.kind
    case DropTemps(x) => PeelKeeps(hir, locals, rank, x);
    case Block(Some(t)) => PeelKeeps(hir, locals, rank, t);
    case _ =>
  }

  /** In whatever order the wrappers come off, the two cores are what is compared. */
  lemma {:induction false} PeelingOrderIsIrrelevant(hir: map<HirId, Expr>, locals: Locals, rank: HirId -> nat,
                                                    e1: Expr, e2: Expr)
    requires Ordered(locals, rank) && InBody(hir, e1) && InBody(hir, e2)
    ensures Unguarded(locals, rank, e1, e2) == Unguarded(locals, rank, Peel(e1), Peel(e2))
    decreases Size(e1) + Size(e2)
  {
    if e1.id != e2.id {
      if e1.kind.DropTemps? && e2.kind.DropTemps? {
        PeelingOrderIsIrrelevant(hir, locals, rank, e1.kind.temps, e2.kind.temps);
      } else if e1.kind.DropTemps? {
        PeelingOrderIsIrrelevant(hir, locals, rank, e1.kind.temps, e2);
      } else if e2.kind.DropTemps? {
        PeelingOrderIsIrrelevant(hir, locals, rank, e1, e2.kind.temps);
      } else if Tailed(e1) {
        PeelingOrderIsIrrelevant(hir, locals, rank, e1.kind.tail.value, e2);
      } else if Tailed(e2) {
        PeelingOrderIsIrrelevant(hir, locals, rank, e1, e2.kind.tail.value);
      }
    }
  }

  // ----- acyclic bindings: what an answer depends on -----

  /** What is left of an expression without node ids, wrappers and names of recorded locals. */
  datatype Shape =
    | LitShape(node: int)
    | NameShape(local: HirId)
    | LetShape(init: Shape)
    | DefShape(res: nat)
    | BinaryShape(op: nat, lhs: Shape, rhs: Shape)
    | UnaryShape(unop: nat, operand: Shape)
    | CastShape(inner: Shape, ty: HirId)
    | NodeShape(id: HirId)

  /** A recorded local stands for its initializer; a node the comparison cannot look into, for itself. */
  ghost function ShapeOf(locals: Locals, rank: HirId -> nat, e: Expr): Shape
    requires Ordered(locals, rank)
    decreases Height(locals, rank, e), Size(e)
  {
    match e.kind
    case Lit(n) => LitShape(n)
    case Local(a) => if a in locals then LetShape(ShapeOf(locals, rank, locals[a])) else NameShape(a)
    case Def(r) => DefShape(r)
    case Binary(op, l, r) => BinaryShape(op, ShapeOf(locals, rank, l), ShapeOf(locals, rank, r))
    case Unary(op, x) => UnaryShape(op, ShapeOf(locals, rank, x))
    case Cast(x, t) => CastShape(ShapeOf(locals, rank, x), t)
    case DropTemps(x) => ShapeOf(locals, rank, x)
    case Block(Some(t)) => ShapeOf(locals, rank, t)
    case _ => NodeShape(e.id)
  }

  lemma {:induction false} PeelKeepsShape(locals: Locals, rank: HirId -> nat, e: Expr)
    requires Ordered(locals, rank)
    ensures ShapeOf(locals, rank, Peel(e)) == ShapeOf(locals, rank, e)
    decreases Size(e)
  {
    match e.kind
    case DropTemps(x) => PeelKeepsShape(locals, rank, x);
    case Block(Some(t)) => PeelKeepsShape(locals, rank, t);
    case _ =>
  }

  /** Two expressions are found equivalent exactly when they are the same up to node ids, wrappers and the names of
      recorded locals. */
  lemma {:induction false} EquivalentIffSameShape(hir: map<HirId, Expr>, locals: Locals, rank: HirId -> nat,
                                                  e1: Expr, e2: Expr)
    requires Ordered(locals, rank) && LocalsInBody(hir, locals) && InBody(hir, e1) && InBody(hir, e2)
    ensures Unguarded(locals, rank, e1, e2) <==> ShapeOf(locals, rank, e1) == ShapeOf(locals, rank, e2)
    decreases Height(locals, rank, e1) + Height(locals, rank, e2), Size(e1) + Size(e2), 1
  {
    PeelingOrderIsIrrelevant(hir, locals, rank, e1, e2);
    PeelKeeps(hir, locals, rank, e1);
    PeelKeeps(hir, locals, rank, e2);
    PeelKeepsShape(locals, rank, e1);
    PeelKeepsShape(locals, rank, e2);
    CoresIffSameShape(hir, locals, rank, Peel(e1), Peel(e2));
  }

  lemma {:induction false} CoresIffSameShape(hir: map<HirId, Expr>, locals: Locals, rank: HirId -> nat,
                                             c1: Expr, c2: Expr)
    requires Ordered(locals, rank) && LocalsInBody(hir, locals) && InBody(hir, c1) && InBody(hir, c2)
    requires Peeled(c1) && Peeled(c2)
    ensures Unguarded(locals, rank, c1, c2) <==> ShapeOf(locals, rank, c1) == ShapeOf(locals, rank, c2)
    decreases Height(locals, rank, c1) + Height(locals, rank, c2), Size(c1) + Size(c2), 0
  {
    if c1.id != c2.id {
      if c1.kind.Local? && c2.kind.Local? {
        if c1.kind.local in locals && c2.kind.local in locals {
          EquivalentIffSameShape(hir, locals, rank, locals[c1.kind.local], locals[c2.kind.local]);
        }
      } else if c1.kind.Binary? && c2.kind.Binary? {
        EquivalentIffSameShape(hir, locals, rank, c1.kind.lhs, c2.kind.lhs);
        EquivalentIffSameShape(hir, locals, rank, c1.kind.rhs, c2.kind.rhs);
      } else if c1.kind.Unary? && c2.kind.Unary? {
        EquivalentIffSameShape(hir, locals, rank, c1.kind.operand, c2.kind.operand);
      } else if c1.kind.Cast? && c2.kind.Cast? {
        EquivalentIffSameShape(hir, locals, rank, c1.kind.inner, c2.kind.inner);
      }
    }
  }

  lemma UnguardedSymmetric(hir: map<HirId, Expr>, locals: Locals, rank: HirId -> nat, e1: Expr, e2: Expr)
    requires Ordered(locals, rank) && LocalsInBody(hir, locals) && InBody(hir, e1) && InBody(hir, e2)
    ensures Unguarded(locals, rank, e1, e2) == Unguarded(locals, rank, e2, e1)
  {
    EquivalentIffSameShape(hir, locals, rank, e1, e2);
    EquivalentIffSameShape(hir, locals, rank, e2, e1);
  }

  lemma UnguardedTransitive(hir: map<HirId, Expr>, locals: Locals, rank: HirId -> nat, e1: Expr, e2: Expr, e3: Expr)
    requires Ordered(locals, rank) && LocalsInBody(hir, locals)
    requires InBody(hir, e1) && InBody(hir, e2) && InBody(hir, e3)
    requires Unguarded(locals, rank, e1, e2) && Unguarded(locals, rank, e2, e3)
    ensures Unguarded(locals, rank, e1, e3)
  {
    EquivalentIffSameShape(hir, locals, rank, e1, e2);
    EquivalentIffSameShape(hir, locals, rank, e2, e3);
    EquivalentIffSameShape(hir, locals, rank, e1, e3);
  }

  /** On acyclic bindings the analyzer's answer is an equivalence relation, and its guard never decides. */
  lemma EquivalenceRelation(hir: map<HirId, Expr>, locals: Locals, rank: HirId -> nat, e1: Expr, e2: Expr, e3: Expr)
    requires Ordered(locals, rank) && LocalsInBody(hir, locals)
    requires InBody(hir, e1) && InBody(hir, e2) && InBody(hir, e3)
    ensures Equivalent(locals, e1, e1, {})
    ensures Equivalent(locals, e1, e2, {}) == Equivalent(locals, e2, e1, {})
    ensures Equivalent(locals, e1, e2, {}) && Equivalent(locals, e2, e3, {}) ==> Equivalent(locals, e1, e3, {})
    ensures Equivalent(locals, e1, e2, {}) == Unguarded(locals, rank, e1, e2)
    ensures Equivalent(locals, e1, e2, {}) <==> ShapeOf(locals, rank, e1) == ShapeOf(locals, rank, e2)
  {
    EquivalentIffSameShape(hir, locals, rank, e1, e2);
    GuardNeverFires(locals, rank, e1, e2, {});
    GuardNeverFires(locals, rank, e2, e1, {});
    GuardNeverFires(locals, rank, e2, e3, {});
    GuardNeverFires(locals, rank, e1, e3, {});
    UnguardedSymmetric(hir, locals, rank, e1, e2);
    if Unguarded(locals, rank, e1, e2) && Unguarded(locals, rank, e2, e3) {
      UnguardedTransitive(hir, locals, rank, e1, e2, e3);
    }
  }
}
