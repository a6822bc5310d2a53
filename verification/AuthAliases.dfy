/** Tracking which locals are copies of a parameter or of the stored admin
    (the visitor of missing-new-admin-auth). */
module AuthAliases {
  import opened Options

  type HirId = nat

  /** Initializers, as far as the tracking looks into them. */
  datatype Expr =
    | LocalPath(id: HirId)
    | IntLiteral(id: HirId)
    | AddrOf(inner: Expr)
    | Deref(inner: Expr)
    | BlockOf(inner: Expr)                           // a block that is just its tail
    | Convert(receiver: Expr)                        // clone, to_owned, into
    | Unwrap(receiver: Expr)                         // unwrap, expect, unwrap_or, ...
    | StorageGet(isStorage: bool, privilegedKey: bool)
    | Other

  function StripIdentity(e: Expr): Expr {
    match e
    case BlockOf(x) => StripIdentity(x)
    case AddrOf(x) => StripIdentity(x)
    case Deref(x) => StripIdentity(x)
    case Convert(x) => StripIdentity(x)
    case _ => e
  }

  /** The local (or literal) an initializer names after stripping. */
  function StrippedId(e: Expr): Option<HirId> {
    match StripIdentity(e)
    case LocalPath(id) => Some(id)
    case IntLiteral(id) => Some(id)
    case _ => None
  }

  /** `storage.get(&PrivilegedKey)`, possibly unwrapped or converted. */
  predicate IsPrivilegedGet(e: Expr) {
    match e
    case Unwrap(x) => IsPrivilegedGet(x)
    case Convert(x) => IsPrivilegedGet(x)
    case StorageGet(isStorage, privilegedKey) => isStorage && privilegedKey
    case _ => false
  }

  predicate IsPrivilegedStorageGet(e: Expr) {
    IsPrivilegedGet(StripIdentity(e))
  }

  /** An initializer is never both: a stored-admin local is never also an alias. */
  lemma AdminReadNamesNoLocal(e: Expr)
    ensures IsPrivilegedStorageGet(e) ==> StrippedId(e).None?
  {
    match e
    case BlockOf(x) => AdminReadNamesNoLocal(x);
    case AddrOf(x) => AdminReadNamesNoLocal(x);
    case Deref(x) => AdminReadNamesNoLocal(x);
    case Convert(x) => AdminReadNamesNoLocal(x);
    case _ =>
  }

  /** One `let` with a plain binding, in the order visited. */
  datatype Let = Let(id: HirId, init: Expr)

  /** What `id` copies if the last `let` binds it to a copy, and `id` itself if not. */
  function Behind(last: Let, id: HirId): HirId {
    if last.id == id && StrippedId(last.init).Some? then StrippedId(last.init).value else id
  }

  /** Follows copies back through the `let`s, latest first. */
  function Root(lets: seq<Let>, id: HirId): HirId {
    if lets == [] then id
    else
      var last, rest := lets[|lets| - 1], lets[..|lets| - 1];
      Root(rest, Behind(last, id))
  }

  function AdminLocals(lets: seq<Let>): set<HirId> {
    set l | l in lets && IsPrivilegedStorageGet(l.init) :: l.id
  }

  /** What the visitor keeps track of: parameters and locals that hold the stored admin. */
  predicate Tracked(params: set<HirId>, lets: seq<Let>, id: HirId) {
    id in params || id in AdminLocals(lets)
  }

  /** Every binding is new: bound once, not a parameter, and not read before it is bound. */
  ghost predicate FreshLet(params: set<HirId>, lets: seq<Let>, l: Let) {
    && l.id !in params && StrippedId(l.init) != Some(l.id)
    && forall k :: k in lets ==> k.id != l.id && StrippedId(k.init) != Some(l.id)
  }

  /** A local bound later is nobody's root. */
  lemma {:induction false} FreshIsNoRoot(params: set<HirId>, lets: seq<Let>, l: Let, id: HirId)
    requires FreshLet(params, lets, l) && id != l.id
    ensures Root(lets, id) != l.id
  {
    if lets != [] {
      var last, rest := lets[|lets| - 1], lets[..|lets| - 1];
      assert last in lets && forall k :: k in rest ==> k in lets;
      FreshIsNoRoot(params, rest, l, Behind(last, id));
    }
  }

  function Resolved(aliases: map<HirId, HirId>, id: HirId): HirId {
    if id in aliases then aliases[id] else id
  }

  /** An alias of a bound local points straight at its tracked root; a local without a tracked root has no alias. */
  ghost predicate AliasOk(params: set<HirId>, lets: seq<Let>, aliases: map<HirId, HirId>, id: HirId) {
    && (id in aliases ==>
          && aliases[id] !in aliases && Tracked(params, lets, aliases[id]) && !Tracked(params, lets, id)
          && exists l :: l in lets && l.id == id)
    && (Tracked(params, lets, Root(lets, id)) ==> Resolved(aliases, id) == Root(lets, id))
    && (!Tracked(params, lets, Root(lets, id)) ==> id !in aliases && !Tracked(params, lets, id))
  }

  ghost predicate Consistent(params: set<HirId>, lets: seq<Let>, aliases: map<HirId, HirId>) {
    forall id :: AliasOk(params, lets, aliases, id)
  }

  class AliasTracker {
    const params: set<HirId>
    var aliases: map<HirId, HirId>
    var currentAdminLocals: set<HirId>
    ghost var lets: seq<Let>

    ghost predicate Valid()
      reads this
    {
      currentAdminLocals == AdminLocals(lets) && Consistent(params, lets, aliases)
    }

    constructor (params: set<HirId>)
      ensures Valid() && lets == [] && this.params == params
    {
      this.params := params;
      aliases, currentAdminLocals, lets := map[], {}, [];
    }

    /** Terminates, because an alias points at a root: the result is the local every copy leads back to,
        whenever that is a parameter or a stored-admin local, and is tracked in no other case. */
    method ResolveAlias(id: HirId) returns (root: HirId)
      requires Valid()
      ensures Tracked(params, lets, root) <==> Tracked(params, lets, Root(lets, id))
      ensures Tracked(params, lets, root) ==> root == Root(lets, id)
      ensures root == Resolved(aliases, id)
    {
      root := id;
      assert AliasOk(params, lets, aliases, id);
      while root in aliases
        invariant root == id || root == Resolved(aliases, id)
        decreases if root in aliases then 1 else 0
      {
        var next := aliases[root];
        if next == root {
          break;
        }
        root := next;
      }
    }

    method VisitLocal(l: Let)
      requires Valid() && FreshLet(params, lets, l)
      modifies this
      ensures Valid() && lets == old(lets) + [l]
    {
      ghost var before, aliasesBefore := lets, aliases;
      if IsPrivilegedStorageGet(l.init) {
        currentAdminLocals := currentAdminLocals + {l.id};
      }
      AdminReadNamesNoLocal(l.init);
      AdminLocalsOneMore(before, l);
      if StrippedId(l.init).Some? {
        var root := ResolveAlias(StrippedId(l.init).value);
        if root in params || root in currentAdminLocals {
          aliases := aliases[l.id := root];
        }
      }
      lets := lets + [l];
      LetKeepsConsistent(params, before, aliasesBefore, l);
    }
  }

  /** The alias map after one more `let`. */
  function AliasesAfter(params: set<HirId>, lets: seq<Let>, aliases: map<HirId, HirId>, l: Let): map<HirId, HirId> {
    if StrippedId(l.init).Some? && Tracked(params, lets, Resolved(aliases, StrippedId(l.init).value))
    then aliases[l.id := Resolved(aliases, StrippedId(l.init).value)]
    else aliases
  }

  lemma LetKeepsConsistent(params: set<HirId>, lets: seq<Let>, aliases: map<HirId, HirId>, l: Let)
    requires Consistent(params, lets, aliases) && FreshLet(params, lets, l)
    ensures Consistent(params, lets + [l], AliasesAfter(params, lets, aliases, l))
  {
    var lets', aliases' := lets + [l], AliasesAfter(params, lets, aliases, l);
    AdminReadNamesNoLocal(l.init);
    AdminLocalsOneMore(lets, l);
    FreshRoots(params, lets, l);
    assert AliasOk(params, lets, aliases, l.id);
    assert l.id !in aliases;
    forall id | Tracked(params, lets', id)
      ensures Tracked(params, lets, id) || id == l.id
    {
    }
    assert !Tracked(params, lets, l.id);
    forall id
      ensures AliasOk(params, lets', aliases', id)
    {
      assert AliasOk(params, lets, aliases, id);
      if id == l.id && StrippedId(l.init).Some? {
        assert AliasOk(params, lets, aliases, StrippedId(l.init).value);
      }
    }
  }

  lemma AdminLocalsOneMore(lets: seq<Let>, l: Let)
    ensures AdminLocals(lets + [l]) == AdminLocals(lets) + (if IsPrivilegedStorageGet(l.init) then {l.id} else {})
  {
    assert forall k :: k in lets + [l] <==> k in lets || k == l;
  }

  /** A new binding changes no other root, and its own root is that of what it copies. */
  lemma FreshRoots(params: set<HirId>, lets: seq<Let>, l: Let)
    requires FreshLet(params, lets, l)
    ensures forall id :: id != l.id ==> Root(lets + [l], id) == Root(lets, id) != l.id
    ensures Root(lets + [l], l.id) == if StrippedId(l.init).Some? then Root(lets, StrippedId(l.init).value) else l.id
  {
    assert (lets + [l])[..|lets|] == lets;
    UnboundIsRoot(lets, l.id);
    forall id | id != l.id ensures Root(lets, id) != l.id {
      FreshIsNoRoot(params, lets, l, id);
    }
  }

  lemma {:induction false} UnboundIsRoot(lets: seq<Let>, id: HirId)
    requires forall k :: k in lets ==> k.id != id
    ensures Root(lets, id) == id
  {
    if lets != [] {
      assert lets[|lets| - 1] in lets;
      UnboundIsRoot(lets[..|lets| - 1], id);
    }
  }

  /** If every `let` that copies a local gives it that local's value, a root has the value of the local. */
  lemma {:induction false} RootHasTheValue(lets: seq<Let>, id: HirId, value: HirId -> int)
    requires forall l :: l in lets && StrippedId(l.init).Some? ==> value(l.id) == value(StrippedId(l.init).value)
    ensures value(Root(lets, id)) == value(id)
  {
    if lets != [] {
      var last, rest := lets[|lets| - 1], lets[..|lets| - 1];
      assert last in lets;
      RootHasTheValue(rest, Behind(last, id), value);
    }
  }
}
