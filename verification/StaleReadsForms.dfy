/** Which code binds, modifies, reads and writes, said by building it. */
module StaleReadsForms {
  import opened Options
  import opened StaleReads

  // ----- keys and locals under borrows -----

  function Borrowed(muts: seq<bool>, e: Expr): Expr {
    if muts == [] then e else AddrOf(muts[0], Borrowed(muts[1..], e))
  }

  /** The local (or literal), under any number of borrows. */
  ghost predicate Names(e: Expr, id: HirId) {
    exists muts :: e == Borrowed(muts, Path(id)) || e == Borrowed(muts, Literal(id))
  }

  lemma {:induction false} RootOfBorrowed(muts: seq<bool>, e: Expr)
    ensures RootId(Borrowed(muts, e)) == RootId(e)
  {
    if muts != [] {
      RootOfBorrowed(muts[1..], e);
    }
  }

  lemma {:induction false} RootLayers(e: Expr) returns (muts: seq<bool>)
    requires RootId(e).Some?
    ensures e == Borrowed(muts, Path(RootId(e).value)) || e == Borrowed(muts, Literal(RootId(e).value))
  {
    match e
    case AddrOf(isMut, x) =>
      var rest := RootLayers(x);
      muts := [isMut] + rest;
    case _ => muts := [];
  }

  lemma RootMeaning(e: Expr, id: HirId)
    ensures RootId(e) == Some(id) <==> Names(e, id)
  {
    if RootId(e) == Some(id) {
      var muts := RootLayers(e);
    }
    if muts :| e == Borrowed(muts, Path(id)) || e == Borrowed(muts, Literal(id)) {
      RootOfBorrowed(muts, Path(id));
      RootOfBorrowed(muts, Literal(id));
    }
  }

  // ----- what an initializer is read from -----

  /** A call that passes its receiver on: `unwrap`, `unwrap_or` or `expect`, with its other parts. */
  datatype Unwrapping = Unwrapping(name: Name, args: seq<Expr>, onStorage: bool, mutSelf: bool, site: Site)

  predicate UnwrapsOnly(us: seq<Unwrapping>) {
    forall u :: u in us ==> u.name == Unwrap || u.name == UnwrapOr || u.name == Expect
  }

  function Unwrapped(us: seq<Unwrapping>, e: Expr): Expr {
    if us == [] then e
    else MethodCall(us[0].name, Unwrapped(us[1..], e), us[0].args, us[0].onStorage, us[0].mutSelf, us[0].site)
  }

  /** `..get(k, ..)` under any number of unwraps. */
  ghost predicate IsReadOf(e: Expr, key: HirId) {
    exists us, recv, arg, more, onStorage, mutSelf, site ::
      UnwrapsOnly(us) && Names(arg, key) &&
          e == Unwrapped(us, MethodCall(Get, recv, [arg] + more, onStorage, mutSelf, site))
  }

  lemma {:induction false} KeyOfUnwrapped(us: seq<Unwrapping>, e: Expr)
    requires UnwrapsOnly(us)
    ensures FindStorageGetArgs(Unwrapped(us, e)) == FindStorageGetArgs(e)
  {
    if us != [] {
      assert us[0] in us && forall u :: u in us[1..] ==> u in us;
      KeyOfUnwrapped(us[1..], e);
    }
  }

  lemma {:induction false} UnwrapLayers(e: Expr) returns (us: seq<Unwrapping>, core: Expr)
    requires FindStorageGetArgs(e).Some?
    ensures UnwrapsOnly(us) && e == Unwrapped(us, core)
    ensures core.MethodCall? && core.name == Get && FindStorageGetArgs(e) == Some(core.args)
  {
    if e.name == Get {
      us, core := [], e;
    } else {
      var rest;
      rest, core := UnwrapLayers(e.receiver);
      us := [Unwrapping(e.name, e.args, e.onStorage, e.mutSelf, e.site)] + rest;
      assert us[1..] == rest;
    }
  }

  /** An initializer is read from a key exactly when it is a `get` of that key, borrowed in any way, under any number
      of unwraps. */
  lemma KeyMeaning(e: Expr, key: HirId)
    ensures KeyOf(e) == Some(key) <==> IsReadOf(e, key)
  {
    if KeyOf(e) == Some(key) {
      var us, core := UnwrapLayers(e);
      RootMeaning(core.args[0], key);
      assert core == MethodCall(Get, core.receiver, [core.args[0]] +
                                core.args[1..], core.onStorage, core.mutSelf, core.site);
    }
    if us, recv, arg, more, onStorage, mutSelf, site :|
      UnwrapsOnly(us) && Names(arg, key) &&
          e == Unwrapped(us, MethodCall(Get, recv, [arg] + more, onStorage, mutSelf, site)) {
      KeyOfUnwrapped(us, MethodCall(Get, recv, [arg] + more, onStorage, mutSelf, site));
      RootMeaning(arg, key);
    }
  }

  // ----- what a node does -----

  /** A `let`, or a condition `if let`, of a pattern that binds `v`, read from the key. */
  ghost predicate Binds(e: Expr, v: HirId, key: HirId) {
    || (e.LetStmt? && v in e.pat && e.init.Some? && IsReadOf(e.init.value, key))
    || (e.LetCond? && v in e.condPat && IsReadOf(e.condInit, key))
  }

  /** An argument `&mut v`, possibly with more borrows. */
  ghost predicate LendsMutably(args: seq<Expr>, v: HirId) {
    exists i, x :: 0 <= i < |args| && args[i] == AddrOf(true, x) && Names(x, v)
  }

  /** An assignment to `v`, a call with `&mut v`, or a method that takes `v` as `&mut self`. */
  ghost predicate Modifies(e: Expr, v: HirId) {
    || (e.Assign? && Names(e.lhs, v))
    || (e.Call? && LendsMutably(e.callArgs, v))
    || (e.MethodCall? && (LendsMutably(e.args, v) || (e.mutSelf && Names(e.receiver, v))))
  }

  ghost predicate CallsStorage(e: Expr, name: Name, key: HirId) {
    e.MethodCall? && e.name == name && e.onStorage && e.args != [] && Names(e.args[0], key)
  }

  lemma {:induction false} MutBorrowsMeaning(args: seq<Expr>, ev: Event)
    ensures ev in MutBorrows(args) <==> ev.Modify? && LendsMutably(args, ev.v)
  {
    if args != [] {
      MutBorrowsMeaning(args[1..], ev);
      if ev.Modify? {
        FirstArgLends(args, ev.v);
      }
      if args[0].AddrOf? && RootId(args[0].inner).Some? {
        RootMeaning(args[0].inner, RootId(args[0].inner).value);
      }
    }
  }

  lemma FirstArgLends(args: seq<Expr>, v: HirId)
    requires args != []
    ensures LendsMutably(args, v) <==>
            (args[0].AddrOf? && args[0].isMut && RootId(args[0].inner) == Some(v)) || LendsMutably(args[1..], v)
  {
    if args[0].AddrOf? {
      RootMeaning(args[0].inner, v);
    }
    if i, x :| 0 <= i < |args| && args[i] == AddrOf(true, x) && Names(x, v) {
      assert i > 0 ==> args[1..][i - 1] == AddrOf(true, x);
    }
    if i, x :| 0 <= i < |args| - 1 && args[1..][i] == AddrOf(true, x) && Names(x, v) {
      assert args[i + 1] == AddrOf(true, x);
    }
    if args[0].AddrOf? && args[0].isMut && RootId(args[0].inner) == Some(v) {
      assert args[0] == AddrOf(true, args[0].inner);
    }
  }

  /** The events of a node, one by one. */
  lemma EventMeaning(e: Expr, ev: Event)
    ensures ev in EventsOf(e) <==>
            match ev
            case Bind(v, key) => Binds(e, v, key)
            case Modify(v) => Modifies(e, v)
            case Read(key, site) => CallsStorage(e, Get, key) && site == e.site
            case Write(key) => CallsStorage(e, Set, key)
  {
    match e
    case MethodCall(name, receiver, args, onStorage, mutSelf, site) => MethodCallEventMeaning(e, ev);
    case Call(args) => MutBorrowsMeaning(args, ev);
    case Assign(lhs, _) => ModifyRootMeaning(lhs, ev);
    case LetCond(pat, init) => BindMeaning(pat, init, ev);
    case LetStmt(pat, init, _) =>
      if init.Some? {
        BindMeaning(pat, init.value, ev);
      }
    case _ =>
  }

  lemma ModifyRootMeaning(e: Expr, ev: Event)
    ensures ev in ModifyRoot(e) <==> ev.Modify? && Names(e, ev.v)
  {
    if ev.Modify? {
      RootMeaning(e, ev.v);
    }
  }

  lemma BindMeaning(pat: seq<HirId>, init: Expr, ev: Event)
    ensures ev in BindFrom(pat, init) <==> ev.Bind? && ev.v in pat && IsReadOf(init, ev.key)
  {
    if ev.Bind? {
      KeyMeaning(init, ev.key);
      if KeyOf(init) == Some(ev.key) && ev.v in pat {
        var i :| 0 <= i < |pat| && pat[i] == ev.v;
        assert BindAll(pat, ev.key)[i] == ev;
      }
    }
  }

  lemma MethodCallEventMeaning(e: Expr, ev: Event)
    requires e.MethodCall?
    ensures ev in EventsOf(e) <==>
            match ev
            case Bind(v, key) => false
            case Modify(v) => Modifies(e, v)
            case Read(key, site) => CallsStorage(e, Get, key) && site == e.site
            case Write(key) => CallsStorage(e, Set, key)
  {
    MutBorrowsMeaning(e.args, ev);
    ModifyRootMeaning(e.receiver, ev);
    if e.args != [] && (ev.Read? || ev.Write?) {
      RootMeaning(e.args[0], ev.key);
    }
    var storage := StorageEvent(e.name, e.args, e.onStorage, e.site);
    var receiver := if e.mutSelf then ModifyRoot(e.receiver) else [];
    assert EventsOf(e) == storage + receiver + MutBorrows(e.args);
  }

  lemma {:induction false} MutBorrowsModify(args: seq<Expr>, i: nat)
    requires i < |MutBorrows(args)|
    ensures MutBorrows(args)[i].Modify?
  {
    var first := if args[0].AddrOf? && args[0].isMut then ModifyRoot(args[0].inner) else [];
    if i >= |first| {
      MutBorrowsModify(args[1..], i - |first|);
    }
  }

  /** The storage call of a node comes first: a `set` that lends the value mutably leaves it modified. */
  lemma StorageCallFirst(e: Expr, i: nat)
    requires e.MethodCall? && 1 <= i < |EventsOf(e)|
    ensures EventsOf(e)[i].Modify?
  {
    var storage := StorageEvent(e.name, e.args, e.onStorage, e.site);
    var receiver := if e.mutSelf then ModifyRoot(e.receiver) else [];
    assert EventsOf(e) == storage + receiver + MutBorrows(e.args);
    if i >= |storage| + |receiver| {
      MutBorrowsModify(e.args, i - |storage| - |receiver|);
    }
  }
}
