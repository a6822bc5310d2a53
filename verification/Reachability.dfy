/** Reachability in a directed graph, given by its step relation. Every search in
    the analyzer is proved to compute exactly this relation. */
module Reachability {

  ghost predicate IsPath<T(!new)>(step: (T, T) -> bool, path: seq<T>) {
    && |path| > 0
    && forall i :: 0 <= i < |path| - 1 ==> step(path[i], path[i + 1])
  }

  ghost predicate Connects<T(!new)>(step: (T, T) -> bool, path: seq<T>, from: T, to: T) {
    IsPath(step, path) && path[0] == from && path[|path| - 1] == to
  }

  /** `to` is reachable from `from` in zero or more steps. */
  ghost predicate Reachable<T(!new)>(step: (T, T) -> bool, from: T, to: T) {
    exists path :: Connects(step, path, from, to)
  }

  lemma ReachableSelf<T(!new)>(step: (T, T) -> bool, x: T)
    ensures Reachable(step, x, x)
  {
    assert Connects(step, [x], x, x);
  }

  lemma ReachableStep<T(!new)>(step: (T, T) -> bool, x: T, y: T, z: T)
    requires Reachable(step, x, y) && step(y, z)
    ensures Reachable(step, x, z)
  {
    var path :| Connects(step, path, x, y);
    assert Connects(step, path + [z], x, z);
  }

  lemma StepReachable<T(!new)>(step: (T, T) -> bool, x: T, y: T, z: T)
    requires step(x, y) && Reachable(step, y, z)
    ensures Reachable(step, x, z)
  {
    var path :| Connects(step, path, y, z);
    assert Connects(step, [x] + path, x, z);
  }

  /** A set closed under the step relation holds everything reachable from its members. */
  lemma ClosedSetHolds<T(!new)>(step: (T, T) -> bool, closed: set<T>, x: T, y: T)
    requires forall u, v :: u in closed && step(u, v) ==> v in closed
    requires x in closed && Reachable(step, x, y)
    ensures y in closed
  {
    var path :| Connects(step, path, x, y);
    var i := 0;
    while i < |path| - 1
      invariant 0 <= i < |path| && path[i] in closed
    {
      assert step(path[i], path[i + 1]);
      i := i + 1;
    }
  }

  /** The reversed relation reaches exactly the other way round. */
  lemma ReachableReverse<T(!new)>(step: (T, T) -> bool, back: (T, T) -> bool, x: T, y: T)
    requires forall u, v :: back(u, v) == step(v, u)
    ensures Reachable(back, y, x) <==> Reachable(step, x, y)
  {
    if Reachable(step, x, y) {
      ReverseOneWay(step, back, x, y);
    }
    if Reachable(back, y, x) {
      ReverseOneWay(back, step, y, x);
    }
  }

  lemma ReverseOneWay<T(!new)>(step: (T, T) -> bool, back: (T, T) -> bool, x: T, y: T)
    requires forall u, v :: back(u, v) == step(v, u)
    requires Reachable(step, x, y)
    ensures Reachable(back, y, x)
  {
    var p :| Connects(step, p, x, y);
    var r := seq(|p|, i requires 0 <= i < |p| => p[|p| - 1 - i]);
    forall i | 0 <= i < |r| - 1
      ensures back(r[i], r[i + 1])
    {
      assert step(p[|p| - 2 - i], p[|p| - 1 - i]);
    }
    assert Connects(back, r, y, x);
  }

  /** A relation that implies another one reaches no more than it. */
  lemma ReachableMonotone<T(!new)>(step: (T, T) -> bool, wider: (T, T) -> bool, x: T, y: T)
    requires forall u, v :: step(u, v) ==> wider(u, v)
    requires Reachable(step, x, y)
    ensures Reachable(wider, x, y)
  {
    var p :| Connects(step, p, x, y);
    assert Connects(wider, p, x, y);
  }

  // ----- searches with a stack and a visited set -----

  /** What is visited or stacked is reachable; successors of a visited node are visited or stacked. */
  ghost predicate SearchInv<T(!new)>(step: (T, T) -> bool, start: T, visited: set<T>, stack: seq<T>) {
    && (start in visited || start in stack)
    && (forall x :: x in visited || x in stack ==> Reachable(step, start, x))
    && (forall x, y :: x in visited && step(x, y) ==> y in visited || y in stack)
  }

  lemma SearchStart<T(!new)>(step: (T, T) -> bool, start: T)
    ensures SearchInv(step, start, {}, [start])
  {
    ReachableSelf(step, start);
  }

  /** Popping a node that was visited before keeps the invariant. */
  lemma SearchSkip<T(!new)>(step: (T, T) -> bool, start: T, visited: set<T>, rest: seq<T>, top: T)
    requires SearchInv(step, start, visited, rest + [top]) && top in visited
    ensures SearchInv(step, start, visited, rest)
  {
    var stack := rest + [top];
    assert forall x :: x in stack <==> x in rest || x == top;
  }

  /** So does visiting the top and stacking its successors, as long as those left out were visited before. */
  lemma SearchStep<T(!new)>(step: (T, T) -> bool, start: T, visited: set<T>, rest: seq<T>, top: T, pushed: seq<T>)
    requires SearchInv(step, start, visited, rest + [top])
    requires forall y :: y in pushed ==> step(top, y)
    requires forall y :: step(top, y) ==> y in pushed || y in visited + {top}
    ensures SearchInv(step, start, visited + {top}, rest + pushed)
  {
    var stack, visited', stack' := rest + [top], visited + {top}, rest + pushed;
    assert top in stack;
    assert forall x :: x in stack <==> x in rest || x == top;
    assert forall x :: x in stack' <==> x in rest || x in pushed;
    forall y | y in pushed
      ensures Reachable(step, start, y)
    {
      ReachableStep(step, start, top, y);
    }
  }

  /** When the stack is empty the visited set is exactly the reachable set. */
  lemma SearchDone<T(!new)>(step: (T, T) -> bool, start: T, visited: set<T>)
    requires SearchInv(step, start, visited, [])
    ensures forall x :: x in visited <==> Reachable(step, start, x)
  {
    forall x | Reachable(step, start, x)
      ensures x in visited
    {
      ClosedSetHolds(step, visited, start, x);
    }
  }
}
