/** The package dependency graph, kept as a flattened connection matrix. */
module Dependencies {
  import opened Options
  import opened Reachability

  datatype Error = NoResolution | UnknownNode(id: string) | UnknownDependency(node: string) | UnknownPackage(id: string)
  datatype Result<+T> = Ok(value: T) | Err(error: Error)

  /** A node of cargo's resolution: a package and its direct dependencies. */
  datatype Node = Node(id: string, dependencies: seq<string>)

  ghost function DirectDependency(nodes: seq<Node>): (string, string) -> bool {
    (p, d) => exists node :: node in nodes && node.id == p && d in node.dependencies
  }

  /** What both searches are about: a single edge, or zero or more of them. */
  ghost predicate Depends(nodes: seq<Node>, package: string, dependency: string, direct: bool) {
    if direct then DirectDependency(nodes)(package, dependency)
    else Reachable(DirectDependency(nodes), package, dependency)
  }

  /** Every node and every dependency is a known package. */
  ghost predicate AllKnown(nodes: seq<Node>, ids: seq<string>) {
    forall node :: node in nodes ==> node.id in ids && forall d :: d in node.dependencies ==> d in ids
  }

  /** Node `k` is the first that is unknown or has an unknown dependency, and the error says which of the two. */
  ghost predicate FirstFault(nodes: seq<Node>, ids: seq<string>, k: nat, error: Error) {
    && k < |nodes| && AllKnown(nodes[..k], ids)
    && (|| (nodes[k].id !in ids && error == UnknownNode(nodes[k].id))
        || (nodes[k].id in ids && (exists d :: d in nodes[k].dependencies && d !in ids) &&
            error == UnknownDependency(nodes[k].id)))
  }

  ghost predicate Numbering(ids: seq<string>, numbers: map<string, nat>) {
    && (forall s :: s in numbers <==> s in ids)
    && (forall s :: s in numbers ==> numbers[s] < |ids| && ids[numbers[s]] == s)
    && (forall i :: 0 <= i < |ids| ==> numbers[ids[i]] == i)
  }

  lemma CellInRange(row: nat, col: nat, n: nat)
    requires row < n && col < n
    ensures 0 <= row * n + col < n * n
  {
    assert (row + 1) * n <= n * n;
  }

  lemma CellUnique(row: nat, col: nat, row': nat, col': nat, n: nat)
    requires row < n && col < n && row' < n && col' < n
    ensures row * n + col == row' * n + col' <==> row == row' && col == col'
  {
    if row < row' {
      assert (row + 1) * n <= row' * n;
    } else if row' < row {
      assert (row' + 1) * n <= row * n;
    }
  }

  /** Row `i`, column `j` of the flattened matrix. */
  ghost predicate Cell(matrix: seq<bool>, n: nat, i: nat, j: nat)
    requires |matrix| == n * n
  {
    i < n && j < n && (CellInRange(i, j, n); matrix[i * n + j])
  }

  ghost function CellStep(matrix: seq<bool>, n: nat): (nat, nat) -> bool
    requires |matrix| == n * n
  {
    (i: nat, j: nat) => Cell(matrix, n, i, j)
  }

  /** The matrix holds the direct dependencies and nothing else. */
  ghost predicate Encodes(matrix: seq<bool>, ids: seq<string>, nodes: seq<Node>) {
    && |matrix| == |ids| * |ids|
    && AllKnown(nodes, ids)
    && forall i: nat, j: nat :: i < |ids| && j < |ids| ==>
         (Cell(matrix, |ids|, i, j) <==> DirectDependency(nodes)(ids[i], ids[j]))
  }

  /** Walking the matrix is walking the resolution graph. */
  lemma MatrixReachability(matrix: seq<bool>, ids: seq<string>, numbers: map<string, nat>, nodes: seq<Node>, i: nat,
                           j: nat)
    requires Encodes(matrix, ids, nodes) && Numbering(ids, numbers) && i < |ids| && j < |ids|
    ensures Reachable(CellStep(matrix, |ids|), i, j) <==> Reachable(DirectDependency(nodes), ids[i], ids[j])
  {
    var n := |ids|;
    if Reachable(CellStep(matrix, n), i, j) {
      var p :| Connects(CellStep(matrix, n), p, i, j);
      forall k | 0 <= k < |p|
        ensures p[k] < n
      {
        if k + 1 < |p| {
          assert CellStep(matrix, n)(p[k], p[k + 1]);
        }
      }
      var q := seq(|p|, k requires 0 <= k < |p| => ids[p[k]]);
      forall k | 0 <= k < |q| - 1
        ensures DirectDependency(nodes)(q[k], q[k + 1])
      {
        assert CellStep(matrix, n)(p[k], p[k + 1]);
      }
      assert Connects(DirectDependency(nodes), q, ids[i], ids[j]);
    }
    if Reachable(DirectDependency(nodes), ids[i], ids[j]) {
      var q :| Connects(DirectDependency(nodes), q, ids[i], ids[j]);
      forall k | 0 <= k < |q|
        ensures q[k] in numbers
      {
        if k + 1 < |q| {
          assert DirectDependency(nodes)(q[k], q[k + 1]);
        }
      }
      var p := seq(|q|, k requires 0 <= k < |q| => numbers[q[k]]);
      forall k | 0 <= k < |p| - 1
        ensures CellStep(matrix, n)(p[k], p[k + 1])
      {
        assert DirectDependency(nodes)(q[k], q[k + 1]);
      }
      assert Connects(CellStep(matrix, n), p, i, j);
    }
  }

  lemma ReachableInRange(step: (nat, nat) -> bool, n: nat, start: nat, i: nat)
    requires start < n && forall u: nat, v: nat :: step(u, v) ==> v < n
    requires Reachable(step, start, i)
    ensures i < n
  {
    var p :| Connects(step, p, start, i);
    if |p| > 1 {
      assert step(p[|p| - 2], p[|p| - 1]);
    }
  }

  function Marked(visited: seq<bool>): (marked: set<nat>)
    ensures forall i: nat :: i in marked <==> i < |visited| && visited[i]
  {
    set i: nat | i < |visited| && visited[i]
  }

  ghost function Unmarked(visited: seq<bool>): set<nat> {
    set i: nat | i < |visited| && !visited[i]
  }

  function Number(ids: seq<string>): (numbers: map<string, nat>)
    requires forall i, j :: 0 <= i < j < |ids| ==> ids[i] != ids[j]
    ensures Numbering(ids, numbers)
  {
    var numbers := map i: nat | i < |ids| :: ids[i] := i;
    assert forall i: nat :: i < |ids| ==> ids[i] in numbers;
    numbers
  }

  class DependencyGraph {
    const packageIds: seq<string>
    const packageNumbers: map<string, nat>
    const connectionMatrix: array<bool>
    ghost const nodes: seq<Node>

    ghost predicate Valid()
      reads connectionMatrix
    {
      Numbering(packageIds, packageNumbers) && Encodes(connectionMatrix[..], packageIds, nodes)
    }

    /** The matrix is square. */
    ghost predicate Square() {
      connectionMatrix.Length == |packageIds| * |packageIds|
    }

    constructor Make(ids: seq<string>, numbers: map<string, nat>, matrix: array<bool>, ghost nodes: seq<Node>)
      requires Numbering(ids, numbers) && Encodes(matrix[..], ids, nodes)
      ensures Valid() && this.nodes == nodes && packageIds == ids && connectionMatrix == matrix
    {
      packageIds, packageNumbers, connectionMatrix := ids, numbers, matrix;
      this.nodes := nodes;
    }

    /** Builds the graph. `ids` are the package ids without repetition, in the order the hash set yields them. */
    static method New(ids: seq<string>, resolve: Option<seq<Node>>) returns (r: Result<DependencyGraph>)
      requires forall i, j :: 0 <= i < j < |ids| ==> ids[i] != ids[j]
      ensures r.Ok? <==> resolve.Some? && AllKnown(resolve.value, ids)
      ensures r.Ok? ==> r.value.Valid() && r.value.nodes == resolve.value && r.value.packageIds == ids && fresh(r.value)
      ensures resolve.None? ==> r == Err(NoResolution)
      ensures resolve.Some? && r.Err? ==> exists k :: FirstFault(resolve.value, ids, k, r.error)
    {
      if resolve.None? {
        return Err(NoResolution);
      }
      var numbers := Number(ids);
      var n := |ids|;
      var matrix := new bool[n * n](_ => false);
      var resolved := resolve.value;
      EncodesNothing(matrix[..], ids);
      for k := 0 to |resolved|
        invariant Encodes(matrix[..], ids, resolved[..k])
      {
        var node := resolved[k];
        if node.id !in numbers {
          assert FirstFault(resolved, ids, k, UnknownNode(node.id));
          return Err(UnknownNode(node.id));
        }
        EncodesNewNode(matrix[..], ids, resolved[..k], node.id);
        var known := Connect(ids, numbers, matrix, resolved[..k], node);
        if !known {
          assert FirstFault(resolved, ids, k, UnknownDependency(node.id));
          return Err(UnknownDependency(node.id));
        }
        assert resolved[..k + 1] == resolved[..k] + [node];
      }
      assert resolved[..|resolved|] == resolved;
      var g := new DependencyGraph.Make(ids, numbers, matrix, resolved);
      return Ok(g);
    }

    /** Writes the row of one node; stops at the first dependency that is not a known package. */
    static method Connect(ids: seq<string>, numbers: map<string, nat>, matrix: array<bool>, ghost done: seq<Node>,
                          node: Node)
      returns (known: bool)
      requires Numbering(ids, numbers) && node.id in ids
      requires Encodes(matrix[..], ids, done + [Node(node.id, [])])
      modifies matrix
      ensures known <==> forall d :: d in node.dependencies ==> d in ids
      ensures known ==> Encodes(matrix[..], ids, done + [node])
    {
      var row, n := numbers[node.id], |ids|;
      for m := 0 to |node.dependencies|
        invariant Encodes(matrix[..], ids, done + [Node(node.id, node.dependencies[..m])])
        invariant forall d :: d in node.dependencies[..m] ==> d in ids
      {
        var dep := node.dependencies[m];
        if dep !in numbers {
          return false;
        }
        var col := numbers[dep];
        CellInRange(row, col, n);
        ghost var before := matrix[..];
        matrix[row * n + col] := true;
        EncodesOneMore(before, matrix[..], ids, numbers, done, node.id, node.dependencies[..m], dep);
        assert node.dependencies[..m + 1] == node.dependencies[..m] + [dep];
      }
      assert node.dependencies[..|node.dependencies|] == node.dependencies;
      return true;
    }

    method GetDependencies(package: nat) returns (deps: seq<nat>)
      requires Square()
      ensures forall j: nat :: j in deps <==> Cell(connectionMatrix[..], |packageIds|, package, j)
    {
      var n := |packageIds|;
      deps := [];
      if package >= n {
        return;
      }
      for i := 0 to n
        invariant forall j: nat :: j in deps <==> j < i && Cell(connectionMatrix[..], n, package, j)
      {
        CellInRange(package, i, n);
        if connectionMatrix[package * n + i] {
          deps := deps + [i];
        }
      }
    }

    method GetDependents(package: nat) returns (dependents: seq<nat>)
      requires Square()
      ensures forall i: nat :: i in dependents <==> Cell(connectionMatrix[..], |packageIds|, i, package)
    {
      var n := |packageIds|;
      dependents := [];
      if package >= n {
        return;
      }
      for i := 0 to n
        invariant forall j: nat :: j in dependents <==> j < i && Cell(connectionMatrix[..], n, j, package)
      {
        CellInRange(i, package, n);
        if connectionMatrix[package + i * n] {
          dependents := dependents + [i];
        }
      }
    }

    method DependsOn(package: string, dependency: string, direct: Option<bool>) returns (r: Result<bool>)
      requires Valid()
      ensures r.Ok? <==> package in packageIds && dependency in packageIds
      ensures r.Err? ==> r == Err(UnknownPackage(if package !in packageIds then package else dependency))
      ensures r.Ok? ==> (r.value <==> Depends(nodes, package, dependency, direct == Some(true)))
    {
      if package !in packageNumbers {
        return Err(UnknownPackage(package));
      }
      if dependency !in packageNumbers {
        return Err(UnknownPackage(dependency));
      }
      var from, to := packageNumbers[package], packageNumbers[dependency];
      var n := |packageIds|;
      if direct != Some(true) {
        var found := Search(from, to);
        MatrixReachability(connectionMatrix[..], packageIds, packageNumbers, nodes, from, to);
        return Ok(found);
      } else {
        var deps := GetDependencies(from);
        return Ok(to in deps);
      }
    }

    /** The forward search: stops as soon as the wanted package is on top of the stack. */
    method Search(from: nat, to: nat) returns (found: bool)
      requires Square() && from < |packageIds| && to < |packageIds|
      ensures found <==> Reachable(CellStep(connectionMatrix[..], |packageIds|), from, to)
    {
      var n := |packageIds|;
      ghost var matrix := connectionMatrix[..];
      ghost var step := CellStep(matrix, n);
      var visited := new bool[n](_ => false);
      var stack := [from];
      SearchStart<nat>(step, from);
      while |stack| > 0
        invariant connectionMatrix[..] == matrix
        invariant SearchInv(step, from, Marked(visited[..]), stack)
        invariant to !in Marked(visited[..])
        decreases Unmarked(visited[..]), |stack|
      {
        var top, rest := stack[|stack| - 1], stack[..|stack| - 1];
        assert stack == rest + [top] && top in stack;
        ReachableInRange(step, n, from, top);
        if top == to {
          return true;
        }
        stack := rest;
        ghost var marked, unmarked := Marked(visited[..]), Unmarked(visited[..]);
        if visited[top] {
          SearchSkip<nat>(step, from, marked, rest, top);
          continue;
        }
        assert top in unmarked && top !in marked;
        visited[top] := true;
        assert Marked(visited[..]) == marked + {top} && Unmarked(visited[..]) == unmarked - {top};
        var next := GetDependencies(top);
        SearchStep<nat>(step, from, marked, rest, top, next);
        stack := stack + next;
      }
      SearchDone<nat>(step, from, Marked(visited[..]));
      return false;
    }

    /** The packages that depend on `package`; an unknown package has none. */
    method ListDependants(package: string, direct: Option<bool>) returns (dependants: seq<string>)
      requires Valid()
      ensures forall p :: p in dependants <==>
                package in packageIds && p in packageIds && Depends(nodes, p, package, direct == Some(true))
      ensures forall i, j :: 0 <= i < j < |dependants| ==> dependants[i] != dependants[j]
    {
      if package !in packageNumbers {
        return [];
      }
      var visited := new bool[|packageIds|](_ => false);
      var target := packageNumbers[package];
      if direct != Some(true) {
        BackwardSearch(target, visited);
        forall i: nat | i < |packageIds|
          ensures visited[i] <==> Depends(nodes, packageIds[i], package, false)
        {
          MatrixReachability(connectionMatrix[..], packageIds, packageNumbers, nodes, i, target);
        }
      } else {
        MarkDependents(target, visited);
      }
      dependants := MarkedNames(visited);
    }

    method MarkDependents(target: nat, visited: array<bool>)
      requires Square() && visited.Length == |packageIds| && visited != connectionMatrix
      requires forall i :: 0 <= i < visited.Length ==> !visited[i]
      modifies visited
      ensures forall i: nat :: i < visited.Length ==>
          (visited[i] <==> Cell(connectionMatrix[..], |packageIds|, i, target))
    {
      ghost var matrix := connectionMatrix[..];
      var dependents := GetDependents(target);
      for i := 0 to |dependents|
        invariant connectionMatrix[..] == matrix
        invariant forall j: nat :: j < visited.Length ==> (visited[j] <==> j in dependents[..i])
      {
        assert dependents[i] in dependents;
        visited[dependents[i]] := true;
        assert dependents[..i + 1] == dependents[..i] + [dependents[i]];
      }
      assert dependents[..|dependents|] == dependents;
    }

    method MarkedNames(visited: array<bool>) returns (names: seq<string>)
      requires Numbering(packageIds, packageNumbers) && visited.Length == |packageIds|
      ensures forall p :: p in names <==> p in packageNumbers && visited[packageNumbers[p]]
      ensures forall i, j :: 0 <= i < j < |names| ==> names[i] != names[j]
    {
      names := [];
      for i := 0 to visited.Length
        invariant forall p :: p in names <==> p in packageNumbers && packageNumbers[p] < i && visited[packageNumbers[p]]
        invariant forall k, l :: 0 <= k < l < |names| ==> names[k] != names[l]
      {
        if visited[i] {
          names := names + [packageIds[i]];
        }
      }
    }

    /** The backward search marks exactly the packages that reach `target`. */
    method BackwardSearch(target: nat, visited: array<bool>)
      requires Square() && target < |packageIds| && visited.Length == |packageIds| && visited != connectionMatrix
      requires forall i :: 0 <= i < visited.Length ==> !visited[i]
      modifies visited
      ensures forall i: nat :: i < visited.Length ==>
                (visited[i] <==> Reachable(CellStep(connectionMatrix[..], |packageIds|), i, target))
    {
      var n := |packageIds|;
      ghost var matrix := connectionMatrix[..];
      ghost var step := CellStep(matrix, n);
      ghost var back := (i: nat, j: nat) => Cell(matrix, n, j, i);
      var stack := [target];
      SearchStart<nat>(back, target);
      while |stack| > 0
        invariant connectionMatrix[..] == matrix
        invariant SearchInv(back, target, Marked(visited[..]), stack)
        decreases Unmarked(visited[..]), |stack|
      {
        var top, rest := stack[|stack| - 1], stack[..|stack| - 1];
        assert stack == rest + [top] && top in stack;
        ReachableInRange(back, n, target, top);
        stack := rest;
        ghost var marked, unmarked := Marked(visited[..]), Unmarked(visited[..]);
        if visited[top] {
          SearchSkip<nat>(back, target, marked, rest, top);
          continue;
        }
        assert top in unmarked && top !in marked;
        visited[top] := true;
        assert Marked(visited[..]) == marked + {top} && Unmarked(visited[..]) == unmarked - {top};
        var next := GetDependents(top);
        SearchStep<nat>(back, target, marked, rest, top, next);
        stack := stack + next;
      }
      SearchDone<nat>(back, target, Marked(visited[..]));
      forall i: nat | i < n
        ensures visited[i] <==> Reachable(step, i, target)
      {
        ReachableReverse(step, back, i, target);
        assert i in Marked(visited[..]) <==> visited[i];
      }
    }

    /** The two searches never disagree about a pair of known packages. */
    method SearchesAgree(package: string, dependency: string, direct: Option<bool>)
      returns (forward: Result<bool>, backward: seq<string>)
      requires Valid() && package in packageIds && dependency in packageIds
      ensures forward.Ok? && (forward.value <==> package in backward)
    {
      forward := DependsOn(package, dependency, direct);
      backward := ListDependants(dependency, direct);
    }
  }

  /** Writing one cell changes that cell and no other. */
  lemma CellWritten(before: seq<bool>, after: seq<bool>, n: nat, row: nat, col: nat)
    requires |before| == n * n && row < n && col < n && 0 <= row * n + col < |before|
    requires after == before[row * n + col := true]
    ensures forall i: nat, j: nat :: Cell(after, n, i, j) <==> Cell(before, n, i, j) || (i == row && j == col)
  {
    forall i: nat, j: nat
      ensures Cell(after, n, i, j) <==> Cell(before, n, i, j) || (i == row && j == col)
    {
      if i < n && j < n {
        CellInRange(i, j, n);
        CellUnique(i, j, row, col, n);
      }
    }
  }

  /** One more dependency of the last node is one more pair of the relation. */
  lemma OneMoreDependency(done: seq<Node>, id: string, deps: seq<string>, dep: string, p: string, d: string)
    ensures DirectDependency(done + [Node(id, deps + [dep])])(p, d) <==>
            DirectDependency(done + [Node(id, deps)])(p, d) || (p == id && d == dep)
  {
    var last, last' := Node(id, deps), Node(id, deps + [dep]);
    var nodes, nodes' := done + [last], done + [last'];
    assert nodes[|done|] == last && nodes'[|done|] == last';
    if DirectDependency(nodes')(p, d) {
      var node :| node in nodes' && node.id == p && d in node.dependencies;
      assert node in done || node == last';
      if node in done {
        assert node in nodes;
      }
    }
    if DirectDependency(nodes)(p, d) {
      var node :| node in nodes && node.id == p && d in node.dependencies;
      assert node in done || node == last;
      if node in done {
        assert node in nodes';
      } else {
        assert d in last'.dependencies;
      }
    }
    if p == id && d == dep {
      assert last'.dependencies[|deps|] == dep;
    }
  }

  lemma EncodesOneMore(before: seq<bool>, after: seq<bool>, ids: seq<string>, numbers: map<string, nat>,
                       done: seq<Node>, id: string, deps: seq<string>, dep: string)
    requires Encodes(before, ids, done + [Node(id, deps)]) && Numbering(ids, numbers)
    requires id in numbers && dep in numbers
    requires 0 <= numbers[id] * |ids| + numbers[dep] < |before|
    requires after == before[numbers[id] * |ids| + numbers[dep] := true]
    ensures Encodes(after, ids, done + [Node(id, deps + [dep])])
  {
    var nodes, nodes' := done + [Node(id, deps)], done + [Node(id, deps + [dep])];
    CellWritten(before, after, |ids|, numbers[id], numbers[dep]);
    forall i: nat, j: nat | i < |ids| && j < |ids|
      ensures Cell(after, |ids|, i, j) <==> DirectDependency(nodes')(ids[i], ids[j])
    {
      OneMoreDependency(done, id, deps, dep, ids[i], ids[j]);
    }
    assert nodes[|done|] == Node(id, deps);
    assert AllKnown(nodes', ids);
  }

  /** A node without dependencies adds nothing to the relation. */
  lemma EncodesNewNode(matrix: seq<bool>, ids: seq<string>, done: seq<Node>, id: string)
    requires Encodes(matrix, ids, done) && id in ids
    ensures Encodes(matrix, ids, done + [Node(id, [])])
  {
    var nodes := done + [Node(id, [])];
    forall p, d
      ensures DirectDependency(nodes)(p, d) <==> DirectDependency(done)(p, d)
    {
      if DirectDependency(done)(p, d) {
        var node :| node in done && node.id == p && d in node.dependencies;
        assert node in nodes;
      }
    }
  }

  lemma EncodesNothing(matrix: seq<bool>, ids: seq<string>)
    requires |matrix| == |ids| * |ids|
    requires forall k :: 0 <= k < |matrix| ==> !matrix[k]
    ensures Encodes(matrix, ids, [])
  {
    forall i: nat, j: nat | i < |ids| && j < |ids|
      ensures !Cell(matrix, |ids|, i, j)
    {
      CellInRange(i, j, |ids|);
    }
  }
}
