/** The visitor of uncached-storage-modification: it updates its maps in place, saves and restores them
    at branches, and so computes the walk. */
module StaleReadsVisitor {
  import opened Options
  import opened StaleReads
  import opened StaleReadsExact

  class StateVisitor {
    var dirtyState: Dirty
    var keyMap: map<HirId, HirId>
    var findings: set<Site>

    constructor ()
      ensures Value() == INITIAL
    {
      dirtyState, keyMap, findings := map[], map[], {};
    }

    ghost function Value(): Analysis
      reads this
    {
      Analysis(dirtyState, keyMap, findings)
    }

    /** `process_pat`: everything a pattern binds is clean and belongs to the key. */
    method ProcessPat(pat: seq<HirId>, key: HirId)
      modifies this
      ensures Value() == TransferAll(old(Value()), BindAll(pat, key))
    {
      for i := 0 to |pat|
        invariant TransferAll(Value(), BindAll(pat[i..], key)) == old(TransferAll(Value(), BindAll(pat, key)))
      {
        assert BindAll(pat[i..], key)[0] == Bind(pat[i], key);
        assert BindAll(pat[i..], key)[1..] == BindAll(pat[i + 1..], key);
        dirtyState := dirtyState[pat[i] := Clean];
        keyMap := keyMap[pat[i] := key];
      }
      assert BindAll(pat[|pat|..], key) == [];
    }

    method BindFromInit(pat: seq<HirId>, init: Expr)
      modifies this
      ensures Value() == TransferAll(old(Value()), BindFrom(pat, init))
    {
      var key := KeyOf(init);
      if key.Some? {
        ProcessPat(pat, key.value);
      }
    }

    /** Marks a tracked local modified. */
    method MarkModified(e: Expr)
      modifies this
      ensures Value() == TransferAll(old(Value()), ModifyRoot(e))
    {
      var id := RootId(e);
      if id.Some? {
        assert ModifyRoot(e)[1..] == [];
        if id.value in dirtyState {
          dirtyState := dirtyState[id.value := Modified];
        }
      }
    }

    method CheckArgsMutBorrow(args: seq<Expr>)
      modifies this
      ensures Value() == TransferAll(old(Value()), MutBorrows(args))
    {
      for i := 0 to |args|
        invariant TransferAll(Value(), MutBorrows(args[i..])) == old(TransferAll(Value(), MutBorrows(args)))
      {
        assert args[i..][0] == args[i] && args[i..][1..] == args[i + 1..];
        if args[i].AddrOf? && args[i].isMut {
          TransferSplit(Value(), ModifyRoot(args[i].inner), MutBorrows(args[i + 1..]));
          MarkModified(args[i].inner);
        } else {
          assert MutBorrows(args[i..]) == MutBorrows(args[i + 1..]);
        }
      }
      assert args[|args|..] == [];
    }

    /** Looks for a tracked local of the key that is modified. */
    method CheckStaleRead(key: HirId, site: Site)
      modifies this
      ensures Value() == Transfer(old(Value()), Read(key, site))
    {
      var rest, stale := dirtyState.Keys, false;
      while rest != {}
        invariant rest <= dirtyState.Keys && Value() == old(Value())
        invariant stale <==> (exists v ::
                    v in dirtyState && v !in rest && dirtyState[v] == Modified && v in keyMap && keyMap[v] == key)
        decreases rest
      {
        var v :| v in rest;
        rest := rest - {v};
        if v in keyMap && keyMap[v] == key && dirtyState[v] == Modified {
          stale := true;
        }
      }
      assert stale <==> StaleFor(Value(), key);
      if stale {
        findings := findings + {site};
      }
    }

    /** A write leaves every local of the key clean, tracked so far or not. */
    method CleanVarsForKey(key: HirId)
      modifies this
      ensures Value() == Transfer(old(Value()), Write(key))
    {
      var rest := keyMap.Keys;
      ghost var before := dirtyState;
      while rest != {}
        invariant rest <= keyMap.Keys && keyMap == old(keyMap) && findings == old(findings)
        invariant dirtyState == before + map v | v in keyMap && v !in rest && keyMap[v] == key :: Clean
        decreases rest
      {
        var v :| v in rest;
        rest := rest - {v};
        if keyMap[v] == key {
          dirtyState := dirtyState[v := Clean];
        }
      }
      assert dirtyState == before + map v | v in keyMap && keyMap[v] == key :: Clean;
    }

    /** What a node does before its children are walked. */
    method OwnEvents(e: Expr)
      requires Straight(e)
      modifies this
      ensures Value() == TransferAll(old(Value()), EventsOf(e))
    {
      match e
      case MethodCall(name, receiver, args, onStorage, mutSelf, site) => MethodCallEvents(e);
      case Call(args) => CheckArgsMutBorrow(args);
      case Assign(lhs, _) => MarkModified(lhs);
      case LetCond(pat, init) => BindFromInit(pat, init);
      case LetStmt(pat, Some(init), _) => BindFromInit(pat, init);
      case _ =>
    }

    method MethodCallEvents(e: Expr)
      requires e.MethodCall?
      modifies this
      ensures Value() == TransferAll(old(Value()), EventsOf(e))
    {
      var storage := StorageEvent(e.name, e.args, e.onStorage, e.site);
      var receiver := if e.mutSelf then ModifyRoot(e.receiver) else [];
      TransferSplit(Value(), storage + receiver, MutBorrows(e.args));
      TransferSplit(Value(), storage, receiver);
      if e.onStorage && FirstKey(e.args).Some? {
        if e.name == Get {
          CheckStaleRead(FirstKey(e.args).value, e.site);
        } else if e.name == Set {
          CleanVarsForKey(FirstKey(e.args).value);
        }
        assert storage != [] ==> storage[1..] == [];
      }
      assert Value() == TransferAll(old(Value()), storage);
      if e.mutSelf {
        MarkModified(e.receiver);
      }
      CheckArgsMutBorrow(e.args);
    }

    method VisitExpr(e: Expr)
      modifies this
      ensures Value() == Visit(e, old(Value()))
      decreases e, 1, 0
    {
      if e.If? {
        VisitExpr(e.cond);
        var preState := dirtyState;
        VisitExpr(e.thenBranch);
        var stateThen := dirtyState;
        dirtyState := preState;
        if e.elseBranch.Some? {
          VisitExpr(e.elseBranch.value);
        }
        MergeWith(stateThen);
      } else if e.Match? && e.normal {
        VisitExpr(e.scrutinee);
        VisitArmsOf(e);
      } else {
        OwnEvents(e);
        ChildrenSmaller(e);
        WalkAll(e, Children(e));
      }
    }

    /** `merge_states(first, current)`: entry by entry over the current state. */
    method MergeWith(first: Dirty)
      modifies this`dirtyState
      ensures dirtyState == MergeStates(first, old(dirtyState))
    {
      var second, rest := dirtyState, dirtyState.Keys;
      var result := first;
      while rest != {}
        invariant rest <= second.Keys
        invariant result == first + map v | v in second && v !in rest && second[v] == Modified :: Modified
        decreases rest
      {
        var v :| v in rest;
        rest := rest - {v};
        if !(v in result && result[v] == Modified) && second[v] == Modified {
          result := result[v := Modified];
        }
      }
      assert result == MergeStates(first, second);
      dirtyState := result;
    }

    method WalkAll(ghost parent: Expr, items: seq<Expr>)
      requires forall i :: 0 <= i < |items| ==> items[i] < parent
      modifies this
      ensures Value() == VisitAll(parent, items, old(Value()))
      decreases parent, 0, 0
    {
      for i := 0 to |items|
        invariant VisitAll(parent, items[i..], Value()) == old(VisitAll(parent, items, Value()))
      {
        assert items[i..][0] == items[i] && items[i..][1..] == items[i + 1..];
        VisitExpr(items[i]);
      }
      assert items[|items|..] == [];
    }

    method VisitArmsOf(e: Expr)
      requires e.Match?
      modifies this
      ensures Value() == VisitArms(e, e.arms, KeyOf(e.scrutinee), old(dirtyState), old(Value()))
      decreases e, 0, 1
    {
      var preState, key, arms := dirtyState, KeyOf(e.scrutinee), e.arms;
      var mergedState := preState;
      ghost var result := VisitArms(e, arms, key, preState, Value());
      for i := 0 to |arms|
        invariant VisitArms(e, arms[i..], key, preState, Value().(dirty := mergedState)) == result
      {
        assert arms[i..][0] == arms[i] && arms[i..][1..] == arms[i + 1..];
        dirtyState := preState;
        VisitOneArm(e, arms[i], key);
        MergeWith(mergedState);
        mergedState := dirtyState;
      }
      assert arms[|arms|..] == [];
      dirtyState := mergedState;
    }

    method VisitOneArm(ghost parent: Expr, arm: Arm, key: Option<HirId>)
      requires arm < parent
      modifies this
      ensures Value() == VisitArm(parent, arm, key, old(Value()))
      decreases parent, 0, 0
    {
      if key.Some? {
        ProcessPat(arm.armPat, key.value);
      }
      if arm.guard.Some? {
        VisitExpr(arm.guard.value);
      }
      VisitExpr(arm.body);
    }

    /** The whole check of one function body. */
    method CheckBody(body: Expr)
      requires Value() == INITIAL && WellScoped(body, NO_SCOPE)
      modifies this
      ensures forall site :: site in findings <==> exists p :: p in Paths(body, {START}, true) && site in p.stale
    {
      VisitExpr(body);
      forall site
        ensures site in findings <==> exists p :: p in Paths(body, {START}, true) && site in p.stale
      {
        ReportedIffStaleOnSomePath(body, site);
      }
    }
  }

  lemma {:induction false} TransferSplit(a: Analysis, evs: seq<Event>, more: seq<Event>)
    ensures TransferAll(a, evs + more) == TransferAll(TransferAll(a, evs), more)
    decreases |evs|
  {
    if evs == [] {
      assert evs + more == more;
    } else {
      assert (evs + more)[0] == evs[0] && (evs + more)[1..] == evs[1..] + more;
      TransferSplit(Transfer(a, evs[0]), evs[1..], more);
    }
  }
}
