/** Which address parameters an attacker controls, and which cross-contract calls
    are reported (detector unvalidated-cross-contract-target). */
module CrossContractTarget {
  import opened Options
  import opened Reachability
  import opened CallGraph

  /** An address parameter: its function and its index among the address parameters. */
  type Slot = (FnId, nat)

  datatype TaintEdge = TaintEdge(caller: FnId, callerIndex: nat, callee: FnId, calleeIndex: nat)

  /** What the pass collected before it decides. */
  datatype Facts = Facts(
    graph: Graph,
    authorized: set<FnId>,
    guarded: map<FnId, set<nat>>,
    counts: map<FnId, nat>,
    edges: seq<TaintEdge>,
    entryPoints: set<FnId>,
    constructors: set<FnId>,
    candidates: map<FnId, seq<nat>>)

  ghost predicate Seed(facts: Facts, s: Slot) {
    && s.0 in facts.counts && s.1 < facts.counts[s.0]
    && s.0 !in facts.constructors && s.0 in facts.entryPoints
  }

  /** The function authorizes, at any depth, or it guards this parameter itself. */
  ghost predicate Protected(facts: Facts, s: Slot) {
    || Reaches(facts.graph, s.0, facts.authorized)
    || (s.0 in facts.guarded && s.1 in facts.guarded[s.0])
  }

  /** One unprotected hand-over of a parameter to a callee. */
  ghost function Forwards(facts: Facts): (Slot, Slot) -> bool {
    (s: Slot, t: Slot) => !Protected(facts, s) && TaintEdge(s.0, s.1, t.0, t.1) in facts.edges
  }

  ghost predicate AttackerControlled(facts: Facts, t: Slot) {
    exists s :: Seed(facts, s) && Reachable(Forwards(facts), s, t)
  }

  ghost function SeedSlots(facts: Facts): set<Slot> {
    set f, i | f in facts.counts && 0 <= i < facts.counts[f] :: (f, i)
  }

  ghost function Slots(facts: Facts): set<Slot> {
    SeedSlots(facts) + set e | e in facts.edges :: (e.callee, e.calleeIndex)
  }

  /** Slots in `reachable` but not in the worklist have handed over what they can. */
  ghost predicate TaintInv(facts: Facts, reachable: set<Slot>, worklist: seq<Slot>) {
    && reachable <= Slots(facts)
    && (forall s :: s in worklist ==> s in reachable)
    && (forall s :: s in reachable ==> AttackerControlled(facts, s))
    && (forall s, t :: s in reachable && s !in worklist && Forwards(facts)(s, t) ==> t in reachable)
  }

  /** The seeding loop. `order` is the order in which the hash map yields the functions. */
  method SeedEntryPoints(facts: Facts, order: seq<FnId>) returns (reachable: set<Slot>, worklist: seq<Slot>)
    requires forall f :: f in order <==> f in facts.counts
    ensures forall s :: s in reachable <==> Seed(facts, s)
    ensures forall s :: s in worklist <==> s in reachable
  {
    reachable, worklist := {}, [];
    for i := 0 to |order|
      invariant forall s :: s in reachable <==> Seed(facts, s) && s.0 in order[..i]
      invariant forall s :: s in worklist <==> s in reachable
    {
      var f := order[i];
      assert order[..i + 1] == order[..i] + [f];
      if f in facts.constructors || f !in facts.entryPoints {
        continue;
      }
      ghost var before := reachable;
      for index := 0 to facts.counts[f]
        invariant forall s :: s in reachable <==> s in before || (s.0 == f && s.1 < index)
        invariant forall s :: s in worklist <==> s in reachable
      {
        if (f, index) !in reachable {
          reachable := reachable + {(f, index)};
          worklist := worklist + [(f, index)];
        }
      }
    }
    assert order[..|order|] == order;
  }

  /** What the edges hand `s` over to. */
  function Targets(edges: seq<TaintEdge>, s: Slot): set<Slot> {
    set e | e in edges && (e.caller, e.callerIndex) == s :: (e.callee, e.calleeIndex)
  }

  /** The slots an unprotected slot hands over to, added to the worklist if new. */
  method ForwardEdges(facts: Facts, s: Slot, reachable: set<Slot>, worklist: seq<Slot>)
    returns (reachable': set<Slot>, worklist': seq<Slot>)
    requires !Protected(facts, s)
    ensures reachable' == reachable + Targets(facts.edges, s)
    ensures forall t :: t in worklist' <==> t in worklist || t in reachable' - reachable
    ensures reachable' == reachable ==> worklist' == worklist
  {
    reachable', worklist' := reachable, worklist;
    for i := 0 to |facts.edges|
      invariant reachable' == reachable + Targets(facts.edges[..i], s)
      invariant forall t :: t in worklist' <==> t in worklist || t in reachable' - reachable
      invariant reachable' == reachable ==> worklist' == worklist
    {
      var edge := facts.edges[i];
      assert facts.edges[..i + 1] == facts.edges[..i] + [edge];
      if edge.caller == s.0 && edge.callerIndex == s.1 {
        var key := (edge.callee, edge.calleeIndex);
        if key !in reachable' {
          reachable' := reachable' + {key};
          worklist' := worklist' + [key];
        }
      }
    }
    assert facts.edges[..|facts.edges|] == facts.edges;
  }

  /** The worklist computes exactly the attacker-controlled slots, for every seed order. */
  method ComputeAttackerReachable(facts: Facts, order: seq<FnId>) returns (reachable: set<Slot>)
    requires forall f :: f in order <==> f in facts.counts
    ensures forall s :: s in reachable <==> AttackerControlled(facts, s)
  {
    var worklist;
    reachable, worklist := SeedEntryPoints(facts, order);
    SeedsStart(facts, reachable, worklist);
    while |worklist| > 0
      invariant TaintInv(facts, reachable, worklist)
      invariant forall s :: Seed(facts, s) ==> s in reachable
      decreases Slots(facts) - reachable, |worklist|
    {
      reachable, worklist := PopSlot(facts, reachable, worklist);
    }
    TaintDone(facts, reachable);
  }

  lemma SeedsStart(facts: Facts, reachable: set<Slot>, worklist: seq<Slot>)
    requires forall s :: s in reachable <==> Seed(facts, s)
    requires forall s :: s in worklist <==> s in reachable
    ensures TaintInv(facts, reachable, worklist)
  {
    forall s | s in reachable
      ensures AttackerControlled(facts, s) && s in Slots(facts)
    {
      ReachableSelf(Forwards(facts), s);
      assert s == (s.0, s.1);
      assert s in SeedSlots(facts);
    }
  }

  lemma TaintDone(facts: Facts, reachable: set<Slot>)
    requires TaintInv(facts, reachable, []) && forall s :: Seed(facts, s) ==> s in reachable
    ensures forall t :: t in reachable <==> AttackerControlled(facts, t)
  {
    forall t | AttackerControlled(facts, t)
      ensures t in reachable
    {
      var s :| Seed(facts, s) && Reachable(Forwards(facts), s, t);
      ClosedSetHolds(Forwards(facts), reachable, s, t);
    }
  }

  /** One step of the worklist: the top slot hands over to its callees unless it is protected. */
  method PopSlot(facts: Facts, reachable: set<Slot>, worklist: seq<Slot>)
    returns (reachable': set<Slot>, worklist': seq<Slot>)
    requires TaintInv(facts, reachable, worklist) && |worklist| > 0
    ensures TaintInv(facts, reachable', worklist') && reachable <= reachable'
    ensures reachable' == reachable ==> |worklist'| < |worklist|
  {
    var s := worklist[|worklist| - 1];
    reachable', worklist' := reachable, worklist[..|worklist| - 1];
    assert worklist == worklist' + [s];
    var protected := IsAuthReachable(s.0, facts.graph, facts.authorized);
    protected := protected || (s.0 in facts.guarded && s.1 in facts.guarded[s.0]);
    if protected {
      ProtectedForwardsNothing(facts, s, reachable, worklist);
      return;
    }
    reachable', worklist' := ForwardEdges(facts, s, reachable, worklist');
    TaintStep(facts, s, reachable, worklist, reachable', worklist');
  }

  lemma ProtectedForwardsNothing(facts: Facts, s: Slot, reachable: set<Slot>, worklist: seq<Slot>)
    requires TaintInv(facts, reachable, worklist) && Protected(facts, s)
    requires |worklist| > 0 && s == worklist[|worklist| - 1]
    ensures TaintInv(facts, reachable, worklist[..|worklist| - 1])
  {
    assert worklist == worklist[..|worklist| - 1] + [s];
  }

  lemma TaintStep(facts: Facts, s: Slot, reachable: set<Slot>, worklist: seq<Slot>,
                  reachable': set<Slot>, worklist': seq<Slot>)
    requires TaintInv(facts, reachable, worklist) && !Protected(facts, s)
    requires |worklist| > 0 && s == worklist[|worklist| - 1]
    requires reachable' == reachable + Targets(facts.edges, s)
    requires forall t :: t in worklist' <==> t in worklist[..|worklist| - 1] || t in reachable' - reachable
    ensures TaintInv(facts, reachable', worklist')
  {
    assert worklist == worklist[..|worklist| - 1] + [s];
    forall t | t in reachable' - reachable
      ensures AttackerControlled(facts, t)
    {
      var e :| e in facts.edges && (e.caller, e.callerIndex) == s && t == (e.callee, e.calleeIndex);
      assert e == TaintEdge(s.0, s.1, t.0, t.1);
      assert s in reachable && AttackerControlled(facts, s);
      var seed :| Seed(facts, seed) && Reachable(Forwards(facts), seed, s);
      ReachableStep(Forwards(facts), seed, s, t);
    }
    forall u, t | u in reachable' && u !in worklist' && Forwards(facts)(u, t)
      ensures t in reachable'
    {
      if u == s {
        var e := TaintEdge(s.0, s.1, t.0, t.1);
        assert (e.callee, e.calleeIndex) == t;
      }
    }
  }

  /** The `k`-th candidate call of `f` is reported. */
  ghost predicate Reported(facts: Facts, f: FnId, k: nat) {
    && f in facts.candidates && k < |facts.candidates[f]|
    && var slot := (f, facts.candidates[f][k]);
       !Protected(facts, slot) && AttackerControlled(facts, slot)
  }

  /** The decision of the pass: exactly the candidates whose target parameter reaches the
      call unprotected from an entry point. */
  method CheckCratePost(facts: Facts, order: seq<FnId>, owners: seq<FnId>) returns (findings: set<(FnId, nat)>)
    requires forall f :: f in order <==> f in facts.counts
    requires forall f :: f in owners <==> f in facts.candidates
    ensures forall x: Slot :: x in findings <==> Reported(facts, x.0, x.1)
  {
    var attackerReachable := ComputeAttackerReachable(facts, order);
    findings := {};
    for i := 0 to |owners|
      invariant forall x: Slot :: x in findings <==> x.0 in owners[..i] && Reported(facts, x.0, x.1)
    {
      assert owners[..i + 1] == owners[..i] + [owners[i]];
      var here := CheckOwner(facts, owners[i], attackerReachable);
      findings := findings + here;
    }
    assert owners[..|owners|] == owners;
  }

  /** The candidates of one function. */
  method CheckOwner(facts: Facts, f: FnId, attackerReachable: set<Slot>) returns (findings: set<(FnId, nat)>)
    requires f in facts.candidates
    requires forall s :: s in attackerReachable <==> AttackerControlled(facts, s)
    ensures forall x: Slot :: x in findings <==> x.0 == f && Reported(facts, f, x.1)
  {
    findings := {};
    var authorized := IsAuthReachable(f, facts.graph, facts.authorized);
    if authorized {
      return;
    }
    var guarded := if f in facts.guarded then facts.guarded[f] else {};
    for k := 0 to |facts.candidates[f]|
      invariant forall x: Slot :: x in findings <==> x.0 == f && x.1 < k && Reported(facts, f, x.1)
    {
      var index := facts.candidates[f][k];
      if index !in guarded && (f, index) in attackerReachable {
        findings := findings + {(f, k)};
      }
    }
  }

  /** `stronger` has at least the guards and authorized functions of `facts`, and nothing else changed. */
  ghost predicate MoreProtected(facts: Facts, stronger: Facts) {
    && stronger == facts.(authorized := stronger.authorized, guarded := stronger.guarded)
    && facts.authorized <= stronger.authorized
    && (forall f :: f in facts.guarded ==> f in stronger.guarded && facts.guarded[f] <= stronger.guarded[f])
  }

  /** Adding a guard or an authorized function never adds a finding. */
  lemma ProtectionIsAntitone(facts: Facts, stronger: Facts, f: FnId, k: nat)
    requires MoreProtected(facts, stronger) && Reported(stronger, f, k)
    ensures Reported(facts, f, k)
  {
    forall s | Protected(facts, s)
      ensures Protected(stronger, s)
    {
      if Reaches(facts.graph, s.0, facts.authorized) {
        var h :| h in facts.authorized && Reachable(Calls(facts.graph), s.0, h);
        assert h in stronger.authorized;
      }
    }
    var slot := (f, facts.candidates[f][k]);
    var seed :| Seed(stronger, seed) && Reachable(Forwards(stronger), seed, slot);
    assert Seed(facts, seed);
    ReachableMonotone(Forwards(stronger), Forwards(facts), seed, slot);
  }

  /** A finding of an entry point's own parameter disappears exactly when that slot is protected:
      protection on the way in is the only thing that can hide it. */
  lemma EntryPointFinding(facts: Facts, f: FnId, k: nat)
    requires f in facts.candidates && k < |facts.candidates[f]| && Seed(facts, (f, facts.candidates[f][k]))
    ensures Reported(facts, f, k) <==> !Protected(facts, (f, facts.candidates[f][k]))
  {
    var slot := (f, facts.candidates[f][k]);
    ReachableSelf(Forwards(facts), slot);
  }

  // ----- two ways of numbering address parameters -----

  /** Raw positions of the address parameters, in declaration order (`isAddress` is the signature). */
  function CollectAddressParams(isAddress: seq<bool>): (positions: seq<nat>)
  {
    if isAddress == [] then []
    else
      var n := |isAddress| - 1;
      CollectAddressParams(isAddress[..n]) + (if isAddress[n] then [n] else [])
  }

  function CountAddresses(isAddress: seq<bool>): nat {
    if isAddress == [] then 0
    else CountAddresses(isAddress[1..]) + (if isAddress[0] then 1 else 0)
  }

  function CalleeAddrParamIndex(isAddress: seq<bool>, rawPos: nat): Option<nat> {
    if rawPos >= |isAddress| || !isAddress[rawPos] then None
    else Some(CountAddresses(isAddress[..rawPos]))
  }

  lemma {:induction false} CountSplit(a: seq<bool>, b: seq<bool>)
    ensures CountAddresses(a + b) == CountAddresses(a) + CountAddresses(b)
  {
    if a == [] {
      assert a + b == b;
    } else {
      CountSplit(a[1..], b);
      assert (a + b)[1..] == a[1..] + b;
    }
  }

  lemma {:induction false} CollectedCount(isAddress: seq<bool>)
    ensures |CollectAddressParams(isAddress)| == CountAddresses(isAddress)
    ensures forall p: nat :: p in CollectAddressParams(isAddress) <==> p < |isAddress| && isAddress[p]
    ensures forall i, j :: 0 <= i < j < |CollectAddressParams(isAddress)| ==>
              CollectAddressParams(isAddress)[i] < CollectAddressParams(isAddress)[j]
  {
    if isAddress != [] {
      var n := |isAddress| - 1;
      CollectedCount(isAddress[..n]);
      CountSplit(isAddress[..n], [isAddress[n]]);
      assert isAddress == isAddress[..n] + [isAddress[n]];
      var before, all := CollectAddressParams(isAddress[..n]), CollectAddressParams(isAddress);
      forall i, j | 0 <= i < j < |all|
        ensures all[i] < all[j]
      {
        assert i < |before| && all[i] == before[i] && before[i] in before;
      }
    }
  }

  /** The index counted in the callee's signature is the index of that very parameter in the
      callee's own filtered list: every edge names the slot the callee's candidates use. */
  lemma {:induction false} IndicesAlign(isAddress: seq<bool>, rawPos: nat)
    ensures CalleeAddrParamIndex(isAddress, rawPos).Some? <==> rawPos in CollectAddressParams(isAddress)
    ensures match CalleeAddrParamIndex(isAddress, rawPos)
            case None => true
            case Some(i) => i < |CollectAddressParams(isAddress)| && CollectAddressParams(isAddress)[i] == rawPos
  {
    if isAddress != [] {
      var n := |isAddress| - 1;
      var front := isAddress[..n];
      IndicesAlign(front, rawPos);
      CollectedCount(front);
      if rawPos < n {
        assert front[..rawPos] == isAddress[..rawPos];
      }
    }
  }
}
