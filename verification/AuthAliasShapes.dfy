/** Which initializers copy a local and which read the stored admin, said by building them, and what chains of
    copies resolve to. */
module AuthAliasShapes {
  import opened Options
  import opened AuthAliases

  // ----- initializers, built from the inside out -----

  datatype Wrapper = InBlock | Borrowed | Dereferenced | Converted | Unwrapped

  function WrapOnce(w: Wrapper, e: Expr): Expr {
    match w
    case InBlock => BlockOf(e)
    case Borrowed => AddrOf(e)
    case Dereferenced => Deref(e)
    case Converted => Convert(e)
    case Unwrapped => Unwrap(e)
  }

  /** The first wrapper is the outermost. */
  function Wrapped(ws: seq<Wrapper>, e: Expr): Expr {
    if ws == [] then e else WrapOnce(ws[0], Wrapped(ws[1..], e))
  }

  /** Blocks, borrows, dereferences and conversions keep what a value is. */
  predicate Identities(ws: seq<Wrapper>) {
    Unwrapped !in ws
  }

  /** Unwraps and conversions of the result of a read. */
  predicate Results(ws: seq<Wrapper>) {
    forall w :: w in ws ==> w == Unwrapped || w == Converted
  }

  /** The expression is a local (or literal) under wrappers that keep it. */
  ghost predicate IsCopyOf(e: Expr, id: HirId) {
    exists ws :: Identities(ws) && (e == Wrapped(ws, LocalPath(id)) || e == Wrapped(ws, IntLiteral(id)))
  }

  /** The expression reads the stored admin: under wrappers that keep the value, the result of a privileged `get`. */
  ghost predicate IsAdminRead(e: Expr) {
    exists outer, inner :: Identities(outer) && Results(inner) &&
      e == Wrapped(outer, Wrapped(inner, StorageGet(true, true)))
  }

  /** Stripping takes off exactly the wrappers that keep the value, and stops at the first other node. */
  lemma {:induction false} StripUnwraps(ws: seq<Wrapper>, e: Expr)
    requires Identities(ws)
    ensures StripIdentity(Wrapped(ws, e)) == StripIdentity(e)
  {
    if ws != [] {
      assert ws[0] in ws && forall w :: w in ws[1..] ==> w in ws;
      StripUnwraps(ws[1..], e);
    }
  }

  lemma {:induction false} StripLayers(e: Expr) returns (ws: seq<Wrapper>)
    ensures Identities(ws) && e == Wrapped(ws, StripIdentity(e))
  {
    match e
    case BlockOf(x) =>
      var rest := StripLayers(x);
      ws := [InBlock] + rest;
    case AddrOf(x) =>
      var rest := StripLayers(x);
      ws := [Borrowed] + rest;
    case Deref(x) =>
      var rest := StripLayers(x);
      ws := [Dereferenced] + rest;
    case Convert(x) =>
      var rest := StripLayers(x);
      ws := [Converted] + rest;
    case _ => ws := [];
  }

  /** An initializer names a local exactly when it is that local under blocks, borrows, dereferences and conversions,
      any number of each in any order. */
  lemma StrippedIdMeaning(e: Expr, id: HirId)
    ensures StrippedId(e) == Some(id) <==> IsCopyOf(e, id)
  {
    if StrippedId(e) == Some(id) {
      var ws := StripLayers(e);
    }
    if ws :| Identities(ws) && (e == Wrapped(ws, LocalPath(id)) || e == Wrapped(ws, IntLiteral(id))) {
      StripUnwraps(ws, LocalPath(id));
      StripUnwraps(ws, IntLiteral(id));
    }
  }

  lemma {:induction false} ResultOfGet(inner: seq<Wrapper>)
    requires Results(inner)
    ensures IsPrivilegedGet(Wrapped(inner, StorageGet(true, true)))
    ensures IsPrivilegedStorageGet(Wrapped(inner, StorageGet(true, true)))
  {
    if inner != [] {
      assert inner[0] in inner && forall w :: w in inner[1..] ==> w in inner;
      ResultOfGet(inner[1..]);
    }
  }

  lemma {:induction false} GetLayers(e: Expr) returns (inner: seq<Wrapper>)
    requires IsPrivilegedGet(e)
    ensures Results(inner) && e == Wrapped(inner, StorageGet(true, true))
  {
    match e
    case Unwrap(x) =>
      var rest := GetLayers(x);
      inner := [Unwrapped] + rest;
    case Convert(x) =>
      var rest := GetLayers(x);
      inner := [Converted] + rest;
    case StorageGet(_, _) => inner := [];
  }

  /** An initializer reads the stored admin exactly when it is a privileged `get` on storage, unwrapped or converted,
      under blocks, borrows, dereferences and conversions. */
  lemma AdminReadMeaning(e: Expr)
    ensures IsPrivilegedStorageGet(e) <==> IsAdminRead(e)
  {
    if IsPrivilegedStorageGet(e) {
      var outer := StripLayers(e);
      var inner := GetLayers(StripIdentity(e));
    }
    if outer, inner :| Identities(outer) && Results(inner) &&
                       e == Wrapped(outer, Wrapped(inner, StorageGet(true, true))) {
      StripUnwraps(outer, Wrapped(inner, StorageGet(true, true)));
      ResultOfGet(inner);
    }
  }

  // ----- chains of copies -----

  /** Bindings in the order visited, each fresh when it is made. */
  ghost predicate AllFresh(params: set<HirId>, lets: seq<Let>) {
    lets != [] ==> FreshLet(params, lets[..|lets| - 1], lets[|lets| - 1]) && AllFresh(params, lets[..|lets| - 1])
  }

  /** Some `let` binds `copy` to `source`, wrapped in some way. */
  ghost predicate Copies(lets: seq<Let>, copy: HirId, source: HirId) {
    exists l :: l in lets && l.id == copy && IsCopyOf(l.init, source)
  }

  ghost predicate ReadsAdmin(lets: seq<Let>, id: HirId) {
    exists l :: l in lets && l.id == id && IsAdminRead(l.init)
  }

  lemma {:induction false} CopyHasTheRoot(params: set<HirId>, lets: seq<Let>, copy: HirId, source: HirId)
    requires AllFresh(params, lets) && Copies(lets, copy, source)
    ensures Root(lets, copy) == Root(lets, source)
  {
    var l :| l in lets && l.id == copy && IsCopyOf(l.init, source);
    StrippedIdMeaning(l.init, source);
    var last, rest := lets[|lets| - 1], lets[..|lets| - 1];
    assert lets == rest + [last];
    FreshRoots(params, rest, last);
    if l == last {
      assert source != last.id;
    } else {
      assert l in rest;
      assert Copies(rest, copy, source);
      CopyHasTheRoot(params, rest, copy, source);
    }
  }

  lemma {:induction false} TrackedIsItsOwnRoot(params: set<HirId>, lets: seq<Let>, id: HirId)
    requires AllFresh(params, lets) && (id in params || ReadsAdmin(lets, id))
    ensures Root(lets, id) == id && Tracked(params, lets, id)
  {
    if ReadsAdmin(lets, id) {
      var l :| l in lets && l.id == id && IsAdminRead(l.init);
      AdminReadMeaning(l.init);
      assert id in AdminLocals(lets);
    }
    if lets != [] {
      var last, rest := lets[|lets| - 1], lets[..|lets| - 1];
      assert lets == rest + [last];
      FreshRoots(params, rest, last);
      if id == last.id {
        UnboundIsRoot(rest, id);
        LastReadsAdmin(params, lets, id);
      } else {
        assert ReadsAdmin(lets, id) ==> ReadsAdmin(rest, id);
        TrackedIsItsOwnRoot(params, rest, id);
      }
    }
  }

  lemma LastReadsAdmin(params: set<HirId>, lets: seq<Let>, id: HirId)
    requires lets != [] && AllFresh(params, lets) && lets[|lets| - 1].id == id && ReadsAdmin(lets, id)
    ensures StrippedId(lets[|lets| - 1].init).None?
  {
    var l :| l in lets && l.id == id && IsAdminRead(l.init);
    var last, rest := lets[|lets| - 1], lets[..|lets| - 1];
    assert l in rest || l == last;
    AdminReadMeaning(l.init);
    AdminReadNamesNoLocal(l.init);
  }

  /** A chain of copies: the first is a parameter or a stored-admin local, each copies the one before. */
  ghost predicate IsChain(params: set<HirId>, lets: seq<Let>, chain: seq<HirId>) {
    && chain != [] && (chain[0] in params || ReadsAdmin(lets, chain[0]))
    && forall i :: 0 <= i < |chain| - 1 ==> Copies(lets, chain[i + 1], chain[i])
  }

  lemma {:induction false} ChainRoot(params: set<HirId>, lets: seq<Let>, chain: seq<HirId>)
    requires AllFresh(params, lets) && IsChain(params, lets, chain)
    ensures Root(lets, chain[|chain| - 1]) == chain[0] && Tracked(params, lets, chain[0])
  {
    var n := |chain| - 1;
    TrackedIsItsOwnRoot(params, lets, chain[0]);
    if n > 0 {
      assert Copies(lets, chain[n - 1 + 1], chain[n - 1]);
      CopyHasTheRoot(params, lets, chain[n], chain[n - 1]);
      ChainRoot(params, lets, chain[..n]);
    }
  }

  /** Whatever `let`s were visited, in whatever forms they copy, the end of a chain resolves to its beginning. */
  lemma ChainResolves(params: set<HirId>, lets: seq<Let>, aliases: map<HirId, HirId>, chain: seq<HirId>)
    requires AllFresh(params, lets) && Consistent(params, lets, aliases) && IsChain(params, lets, chain)
    ensures Resolved(aliases, chain[|chain| - 1]) == chain[0]
  {
    ChainRoot(params, lets, chain);
    assert AliasOk(params, lets, aliases, chain[|chain| - 1]);
  }

  /** Visits a list of `let`s and resolves a local: the end of every chain is resolved to its beginning. */
  method ResolveAfter(params: set<HirId>, lets: seq<Let>, id: HirId) returns (root: HirId)
    requires AllFresh(params, lets)
    ensures forall chain :: IsChain(params, lets, chain) && chain[|chain| - 1] == id ==> root == chain[0]
  {
    var tracker := new AliasTracker(params);
    PrefixesFresh(params, lets);
    for i := 0 to |lets|
      invariant tracker.Valid() && tracker.lets == lets[..i] && tracker.params == params
    {
      assert lets[..i + 1][..i] == lets[..i] && AllFresh(params, lets[..i + 1]);
      tracker.VisitLocal(lets[i]);
      assert lets[..i + 1] == lets[..i] + [lets[i]];
    }
    assert lets[..|lets|] == lets;
    root := tracker.ResolveAlias(id);
    forall chain | IsChain(params, lets, chain) && chain[|chain| - 1] == id
      ensures root == chain[0]
    {
      ChainResolves(params, lets, tracker.aliases, chain);
    }
  }

  lemma {:induction false} PrefixesFresh(params: set<HirId>, lets: seq<Let>)
    requires AllFresh(params, lets)
    ensures forall i :: 0 <= i <= |lets| ==> AllFresh(params, lets[..i])
  {
    if lets == [] {
      assert lets[..0] == lets;
    } else {
      var rest := lets[..|lets| - 1];
      PrefixesFresh(params, rest);
      forall i | 0 <= i <= |lets| ensures AllFresh(params, lets[..i]) {
        assert i < |lets| ==> lets[..i] == rest[..i];
        assert i == |lets| ==> lets[..i] == lets;
      }
    }
  }
}
