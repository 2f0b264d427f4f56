/** What every interleaving of writers guarantees of the revision chains. */
module FactRevisionTheorems {
  import opened Options
  import opened FactRevisionRules

  // ---- Every step keeps it ----

  /** r can start a new anchor's chain. */
  ghost predicate Starts(s: Store, r: Revision) {
    && r.id == s.next + 1 && r.anchor == s.next && r.kind.Initial? && r.supersededBy.None?
    && Carries(s.scope, r, Unknown(s.scope)) && RequiredKnown(s.scope, r.values)
  }

  lemma PlantKeepsChains(s: Store, identity: Identity, r: Revision)
    requires StoreInv(s) && Starts(s, r)
    ensures var s' := Plant(s, identity, r); forall a :: a in s'.anchors ==> exists chain :: IsChain(s', a, chain)
  {
    hide RequiredKnown, Carries;
    var s' := Plant(s, identity, r);
    assert Linked(s', [r.id], 0);
    assert IsChain(s', r.anchor, [r.id]);
    forall a | a in s.anchors
      ensures exists chain :: IsChain(s', a, chain)
    {
      var chain :| IsChain(s, a, chain);
      PlantKeepsChain(s, identity, r, a, chain);
    }
  }

  lemma PlantKeepsChain(s: Store, identity: Identity, r: Revision, a: nat, chain: seq<nat>)
    requires StoreInv(s) && Starts(s, r) && a in s.anchors && IsChain(s, a, chain)
    ensures IsChain(Plant(s, identity, r), a, chain)
  {
    hide Carries, RequiredKnown;
    var s' := Plant(s, identity, r);
    forall i | 0 <= i < |chain|
      ensures Linked(s', chain, i)
    {
      assert Linked(s, chain, i);
    }
  }

  lemma PlantKeepsStore(s: Store, identity: Identity, r: Revision)
    requires StoreInv(s) && Starts(s, r) && (s.scope.ItemFacts? ==> AnchorsOf(s, identity) == {})
    ensures StoreInv(Plant(s, identity, r))
  {
    hide IsChain, Carries;
    PlantKeepsChains(s, identity, r);
    if s.scope.ItemFacts? {
      forall a | a in s.anchors
        ensures s.anchors[a] != identity
      {
        assert a !in AnchorsOf(s, identity);
      }
    }
  }

  lemma InitialStarts(s: Store, c: CreateCall)
    requires CreateRefusal(s, c).None?
    ensures Starts(s, InitialRevision(s, c))
  {
  }

  lemma LedgerStarts(s: Store, row: LedgerRow)
    requires s.scope.ContractFacts?
    ensures Starts(s, LedgerRevision(s, row))
  {
  }

  lemma InstallKeepsStore(s: Store, c: CreateCall)
    requires StoreInv(s) && CreateRefusal(s, c).None? && AnchorsOf(s, c.identity) == {}
    ensures StoreInv(Install(s, c))
  {
    hide StoreInv, Starts;
    InitialStarts(s, c);
    PlantKeepsStore(s, c.identity, InitialRevision(s, c));
  }

  lemma CurrentIsLast(s: Store, a: nat, chain: seq<nat>, id: nat)
    requires IsChain(s, a, chain) && IsCurrent(s, a, id)
    ensures chain[|chain| - 1] == id
  {
    var i :| 0 <= i < |chain| && chain[i] == id;
    assert Linked(s, chain, i);
  }

  lemma AppendExtendsChain(s: Store, p: Pending, chain: seq<nat>)
    requires PendingInv(s, p) && CanAppend(s, p.revision, p.basedOn) && IsChain(s, p.revision.anchor, chain)
    ensures IsChain(Append(s, p.revision, p.basedOn), p.revision.anchor, chain + [p.revision.id])
  {
    hide RequiredKnown;
    var s', longer := Append(s, p.revision, p.basedOn), chain + [p.revision.id];
    CurrentIsLast(s, p.revision.anchor, chain, p.basedOn);
    assert longer[|chain|] == p.revision.id && longer[|chain| - 1] == p.basedOn;
    forall id
      ensures id in longer <==> id in s'.rows && s'.rows[id].anchor == p.revision.anchor
    {
      assert id in longer <==> id in chain || id == p.revision.id;
    }
    forall i | 0 <= i < |longer|
      ensures Linked(s', longer, i)
    {
      if i > 0 {
        assert longer[i - 1] == chain[i - 1] && chain[i - 1] in chain;
      }
      if i < |chain| {
        assert Linked(s, chain, i);
        assert longer[i] == chain[i] && chain[i] in chain;
      }
    }
  }

  lemma AppendKeepsOtherChain(s: Store, p: Pending, a: nat, chain: seq<nat>)
    requires PendingInv(s, p) && CanAppend(s, p.revision, p.basedOn) && IsChain(s, a, chain) && a != p.revision.anchor
    ensures IsChain(Append(s, p.revision, p.basedOn), a, chain)
  {
    hide Carries, RequiredKnown;
    forall i | 0 <= i < |chain|
      ensures Linked(Append(s, p.revision, p.basedOn), chain, i)
    {
      assert Linked(s, chain, i);
    }
  }

  lemma AppendKeepsChains(s: Store, p: Pending)
    requires StoreInv(s) && PendingInv(s, p) && CanAppend(s, p.revision, p.basedOn)
    ensures forall a :: a in s.anchors ==> exists chain :: IsChain(Append(s, p.revision, p.basedOn), a, chain)
  {
    hide IsChain, PendingInv, CanAppend, Append;
    forall a | a in s.anchors
      ensures exists chain :: IsChain(Append(s, p.revision, p.basedOn), a, chain)
    {
      var chain :| IsChain(s, a, chain);
      if a == p.revision.anchor {
        AppendExtendsChain(s, p, chain);
      } else {
        AppendKeepsOtherChain(s, p, a, chain);
      }
    }
  }

  lemma AppendKeepsStore(s: Store, p: Pending)
    requires StoreInv(s) && PendingInv(s, p)
    ensures StoreInv(Append(s, p.revision, p.basedOn))
  {
    hide IsChain, Carries, RequiredKnown;
    if CanAppend(s, p.revision, p.basedOn) {
      var s' := Append(s, p.revision, p.basedOn);
      AppendKeepsChains(s, p);
      forall x, y | x in s'.rows && y in s'.rows && x != y && s'.rows[x].anchor == s'.rows[y].anchor
        ensures s'.rows[x].fragment != s'.rows[y].fragment
      {
        assert !BackedBy(s, p.revision.anchor, p.revision.fragment, x);
        assert !BackedBy(s, p.revision.anchor, p.revision.fragment, y);
      }
    }
  }

  /** Installing one writer's revision leaves the other prepared revisions sound. */
  lemma AppendKeepsPending(s: Store, p: Pending, q: Pending)
    requires StoreInv(s) && PendingInv(s, p) && PendingInv(s, q) && p.revision.id != q.revision.id
    ensures PendingInv(Append(s, p.revision, p.basedOn), q)
  {
    hide IsChain, Carries, RequiredKnown;
    if CanAppend(s, p.revision, p.basedOn) {
      var s' := Append(s, p.revision, p.basedOn);
      if s'.rows[q.basedOn].supersededBy.None? {
        if p.revision.anchor == q.revision.anchor {
          OneCurrent(s, p.revision.anchor, p.basedOn, q.basedOn);
        }
        forall id
          ensures !BackedBy(s', q.revision.anchor, q.revision.fragment, id)
        {
          assert !BackedBy(s, q.revision.anchor, q.revision.fragment, id);
        }
      }
    }
  }

  lemma OneCurrent(s: Store, a: nat, x: nat, y: nat)
    requires a in s.anchors && StoreInv(s) && IsCurrent(s, a, x) && IsCurrent(s, a, y)
    ensures x == y
  {
    var chain :| IsChain(s, a, chain);
    CurrentIsLast(s, a, chain, x);
    CurrentIsLast(s, a, chain, y);
  }

  lemma PlantKeepsPending(s: Store, identity: Identity, r: Revision, q: Pending)
    requires StoreInv(s) && Starts(s, r) && PendingInv(s, q)
    ensures PendingInv(Plant(s, identity, r), q)
  {
    hide IsChain, Carries, RequiredKnown;
    var s' := Plant(s, identity, r);
    if s'.rows[q.basedOn].supersededBy.None? {
      forall id
        ensures !BackedBy(s', q.revision.anchor, q.revision.fragment, id)
      {
        assert !BackedBy(s, q.revision.anchor, q.revision.fragment, id);
      }
    }
  }

  lemma PlantKeepsInv(y: System, identity: Identity, r: Revision)
    requires Inv(y) && Starts(y.store, r) && (y.store.scope.ItemFacts? ==> AnchorsOf(y.store, identity) == {})
    ensures Inv(y.(store := Plant(y.store, identity, r)))
  {
    hide StoreInv, PendingInv, Starts, Plant;
    PlantKeepsStore(y.store, identity, r);
    forall w | w in y.pending
      ensures PendingInv(Plant(y.store, identity, r), y.pending[w])
    {
      PlantKeepsPending(y.store, identity, r, y.pending[w]);
    }
  }

  lemma CreateKeepsInv(y: System, c: CreateCall, o: Outcome, y': System)
    requires Inv(y) && y'.pending == y.pending && Creates(y.store, c, o, y'.store)
    ensures Inv(y')
  {
    hide Inv, CreateRefusal, AnswerExisting, Starts, AnchorsOf, InitialRevision, Plant;
    if y'.store != y.store {
      InitialStarts(y.store, c);
      PlantKeepsInv(y, c.identity, InitialRevision(y.store, c));
      assert y' == y.(store := Install(y.store, c));
    } else {
      assert y' == y;
    }
  }

  lemma LedgerRowKeepsInv(y: System, row: LedgerRow)
    requires Inv(y) && y.store.scope.ContractFacts?
    ensures Inv(y.(store := AddLedgerRow(y.store, row)))
  {
    hide Inv, Plant;
    var s' := y.store.(fragments := y.store.fragments + {row.fragment});
    EvidenceKeepsInv(y, s');
    LedgerStarts(s', row);
    PlantKeepsInv(y.(store := s'), LedgerIdentity(row), LedgerRevision(s', row));
  }

  lemma {:induction false} LedgerKeepsInv(y: System, ledger: seq<LedgerRow>)
    requires Inv(y) && y.store.scope.ContractFacts?
    ensures Inv(y.(store := ImportLedger(y.store, ledger))) && ImportLedger(y.store, ledger).scope == y.store.scope
  {
    hide Inv;
    if ledger == [] {
      assert y.(store := y.store) == y;
    } else {
      var front := ledger[..|ledger| - 1];
      LedgerKeepsInv(y, front);
      LedgerRowKeepsInv(y.(store := ImportLedger(y.store, front)), ledger[|ledger| - 1]);
    }
  }

  lemma MergedCarries(s: Store, c: ReviseCall)
    requires StoreInv(s) && c.anchor in s.anchors && FieldsValid(s.scope, c.fields) && IsCurrent(s, c.anchor, c.basedOn)
    ensures Carries(s.scope, Merged(s.rows[c.basedOn], c, s.next), s.rows[c.basedOn].values)
    ensures (s.scope.ContractFacts? ==> forall f :: f in c.fields ==> c.fields[f].Some?) ==>
              RequiredKnown(s.scope, Merged(s.rows[c.basedOn], c, s.next).values)
  {
    hide IsChain;
    var chain :| IsChain(s, c.anchor, chain);
    CurrentIsLast(s, c.anchor, chain, c.basedOn);
    ChainNotEmpty(s, c.anchor, chain);
    LinkedAt(s, c.anchor, chain, |chain| - 1);
  }

  lemma LinkedAt(s: Store, a: nat, chain: seq<nat>, i: nat)
    requires IsChain(s, a, chain) && i < |chain|
    ensures (forall id :: id in chain ==> id in s.rows) && Linked(s, chain, i)
  {
    hide Carries;
  }

  lemma PrepareKeepsInv(y: System, w: nat, c: ReviseCall, r: Revision)
    requires Inv(y) && w !in y.pending && Prepares(y.store, c, r)
    ensures Inv(System(y.store.(next := y.store.next + 1), y.pending[w := Pending(c.basedOn, r)]))
  {
    hide IsChain, Carries, RequiredKnown, FieldsValid, IntentRefusal;
    var s' := y.store.(next := y.store.next + 1);
    MergedCarries(y.store, c);
    forall a | a in s'.anchors
      ensures exists chain :: IsChain(s', a, chain)
    {
      var chain :| IsChain(y.store, a, chain);
      SameRowsSameChain(y.store, s', a, chain);
    }
    forall id
      ensures !BackedBy(s', r.anchor, r.fragment, id)
    {
      assert !BackedBy(y.store, r.anchor, r.fragment, id);
    }
    forall v | v in y.pending
      ensures PendingInv(s', y.pending[v])
    {
      SameRowsSamePending(y.store, s', y.pending[v]);
    }
  }

  lemma SameRowsSameChain(s: Store, s': Store, a: nat, chain: seq<nat>)
    requires s'.rows == s.rows && s'.scope == s.scope && IsChain(s, a, chain)
    ensures IsChain(s', a, chain)
  {
    hide Carries;
    forall i | 0 <= i < |chain|
      ensures Linked(s', chain, i)
    {
      assert Linked(s, chain, i);
    }
  }

  lemma SameRowsSamePending(s: Store, s': Store, p: Pending)
    requires s'.rows == s.rows && s'.scope == s.scope && s'.anchors == s.anchors && s'.next >= s.next
      && PendingInv(s, p)
    ensures PendingInv(s', p)
  {
    hide Carries, RequiredKnown;
    if s'.rows[p.basedOn].supersededBy.None? {
      forall id
        ensures !BackedBy(s', p.revision.anchor, p.revision.fragment, id)
      {
        assert !BackedBy(s, p.revision.anchor, p.revision.fragment, id);
      }
    }
  }

  lemma EvidenceKeepsInv(y: System, s': Store)
    requires Inv(y) && s' == y.store.(contracts := s'.contracts, fragments := s'.fragments)
    ensures Inv(y.(store := s'))
  {
    hide IsChain, PendingInv;
    forall a | a in s'.anchors
      ensures exists chain :: IsChain(s', a, chain)
    {
      var chain :| IsChain(y.store, a, chain);
      SameRowsSameChain(y.store, s', a, chain);
    }
    forall w | w in y.pending
      ensures PendingInv(s', y.pending[w])
    {
      SameRowsSamePending(y.store, s', y.pending[w]);
    }
  }

  lemma CommitKeepsInv(y: System, w: nat)
    requires Inv(y) && w in y.pending
    ensures Inv(System(Append(y.store, y.pending[w].revision, y.pending[w].basedOn), y.pending - {w}))
  {
    hide StoreInv, PendingInv, Append;
    var p := y.pending[w];
    AppendKeepsStore(y.store, p);
    forall v | v in y.pending && v != w
      ensures PendingInv(Append(y.store, p.revision, p.basedOn), y.pending[v])
    {
      AppendKeepsPending(y.store, p, y.pending[v]);
    }
  }

  lemma StepKeepsInv(y: System, step: Step, y': System)
    requires Inv(y) && Next(y, step, y')
    ensures Inv(y')
  {
    hide Inv, Creates, Answers, Prepares, Append, ImportLedger;
    match step
    case AddContract(_) => EvidenceKeepsInv(y, y'.store);
    case AddFragment(_) => EvidenceKeepsInv(y, y'.store);
    case Create(call, o) => CreateKeepsInv(y, call, o, y');
    case Import(ledger) => LedgerKeepsInv(y, ledger);
    case Answer(_, _) =>
    case Prepare(w, call) =>
      var r :| Prepares(y.store, call, r) && y'.pending == y.pending[w := Pending(call.basedOn, r)];
      PrepareKeepsInv(y, w, call, r);
    case Commit(w) => CommitKeepsInv(y, w);
    case Abandon(w) => AbandonKeepsInv(y, w);
  }

  lemma AbandonKeepsInv(y: System, w: nat)
    requires Inv(y)
    ensures Inv(y.(pending := y.pending - {w}))
  {
    hide StoreInv, PendingInv;
  }

  lemma {:induction false} EveryRunKeepsInv(scope: Scope, states: seq<System>, steps: seq<Step>)
    requires IsRun(scope, states, steps)
    ensures Inv(states[|steps|]) && states[|steps|].store.scope == scope
  {
    hide Inv, Next;
    if steps == [] {
      EmptyInv(scope);
    } else {
      var n := |steps| - 1;
      EveryRunKeepsInv(scope, states[..n + 1], steps[..n]);
      assert Next(states[n], steps[n], states[n + 1]);
      StepKeepsInv(states[n], steps[n], states[n + 1]);
      StepKeepsScope(states[n], steps[n], states[n + 1]);
    }
  }

  lemma EmptyInv(scope: Scope)
    ensures Inv(Empty(scope))
  {
  }

  lemma StepKeepsScope(y: System, step: Step, y': System)
    requires Inv(y) && Next(y, step, y')
    ensures y'.store.scope == y.store.scope
  {
    hide Inv;
    if step.Import? {
      LedgerKeepsInv(y, step.ledger);
    }
  }

  // ---- What the invariant says about a history ----

  lemma PositionIn(s: Store, a: nat, chain: seq<nat>, id: nat) returns (i: nat)
    requires IsChain(s, a, chain) && id in s.rows && s.rows[id].anchor == a
    ensures i < |chain| && chain[i] == id && Linked(s, chain, i)
  {
    hide Carries;
    assert id in chain;
    i :| 0 <= i < |chain| && chain[i] == id;
  }

  lemma ChainOf(s: Store, a: nat) returns (chain: seq<nat>)
    requires StoreInv(s) && a in s.anchors
    ensures IsChain(s, a, chain) && |chain| > 0
  {
    hide IsChain, RequiredKnown;
    chain :| IsChain(s, a, chain);
    ChainNotEmpty(s, a, chain);
  }

  lemma ChainNotEmpty(s: Store, a: nat, chain: seq<nat>)
    requires IsChain(s, a, chain)
    ensures |chain| > 0
  {
  }

  lemma HeadIsFirst(s: Store, a: nat, chain: seq<nat>, id: nat)
    requires IsChain(s, a, chain) && IsInitial(s, a, id)
    ensures |chain| > 0 && chain[0] == id
  {
    hide Carries;
    var i := PositionIn(s, a, chain, id);
  }

  lemma SuccessorIs(s: Store, a: nat, chain: seq<nat>, i: nat)
    requires IsChain(s, a, chain) && i < |chain|
    ensures chain[i] in s.rows
      && s.rows[chain[i]].supersededBy == (if i + 1 < |chain| then Some(chain[i + 1]) else None)
    ensures i + 1 < |chain| ==> chain[i + 1] in s.rows
  {
    hide Carries;
    assert Linked(s, chain, i);
    assert chain[i] in chain && (i + 1 < |chain| ==> chain[i + 1] in chain);
  }

  /** One linear history per anchor: a unique INITIAL head and a unique current tail, ... */
  lemma OneHeadOneTail(s: Store, a: nat)
    requires StoreInv(s) && a in s.anchors
    ensures exists id :: IsInitial(s, a, id) && forall x :: IsInitial(s, a, x) ==> x == id
    ensures exists id :: IsCurrent(s, a, id) && forall x :: IsCurrent(s, a, x) ==> x == id
  {
    hide Carries, RequiredKnown;
    var chain :| IsChain(s, a, chain);
    var n := |chain| - 1;
    assert Linked(s, chain, 0) && Linked(s, chain, n);
    assert chain[0] in chain && chain[n] in chain;
    forall x | IsInitial(s, a, x)
      ensures x == chain[0]
    {
      var i := PositionIn(s, a, chain, x);
    }
    forall x | IsCurrent(s, a, x)
      ensures x == chain[n]
    {
      CurrentIsLast(s, a, chain, x);
    }
    assert IsInitial(s, a, chain[0]) && IsCurrent(s, a, chain[n]);
  }

  /** ... every revision superseded at most once, and no two superseded by the same one. */
  lemma NoForks(s: Store, a: nat, x: nat, y: nat)
    requires StoreInv(s) && a in s.anchors
    requires x in s.rows && s.rows[x].anchor == a && s.rows[x].supersededBy.Some?
    requires y in s.rows && s.rows[y].anchor == a
    ensures s.rows[x].supersededBy == s.rows[y].supersededBy ==> x == y
    ensures s.rows[x].supersededBy.value in s.rows && s.rows[s.rows[x].supersededBy.value].anchor == a
    ensures !s.rows[s.rows[x].supersededBy.value].kind.Initial?
  {
    hide Carries, RequiredKnown;
    var chain :| IsChain(s, a, chain);
    var i := PositionIn(s, a, chain, x);
    var j := PositionIn(s, a, chain, y);
    assert chain[i + 1] in chain && Linked(s, chain, i + 1);
  }

  /** The assertions of a chain's first i + 1 revisions, later ones winning. */
  ghost function FoldAssertions(s: Store, chain: seq<nat>, i: nat): Values
    requires i < |chain| && forall id :: id in chain ==> id in s.rows
  {
    (if i == 0 then Unknown(s.scope) else FoldAssertions(s, chain, i - 1)) + AssertionOf(s.rows[chain[i]])
  }

  /** No lost update: every stored snapshot is the last-writer-wins fold of all that was asserted. */
  lemma {:induction false} SnapshotIsFold(s: Store, a: nat, chain: seq<nat>, i: nat)
    requires IsChain(s, a, chain) && i < |chain|
    ensures s.rows[chain[i]].values == FoldAssertions(s, chain, i)
  {
    assert Linked(s, chain, i);
    if i == 0 {
    } else {
      SnapshotIsFold(s, a, chain, i - 1);
      assert Linked(s, chain, i - 1);
    }
    var r := s.rows[chain[i]];
    var before := if i == 0 then Unknown(s.scope) else s.rows[chain[i - 1]].values;
    assert before.Keys == r.values.Keys;
    forall f | f in r.values
      ensures (before + AssertionOf(r))[f] == r.values[f]
    {
    }
  }

  // ---- Known values ----

  /** A Contract's gross amount and currency are known in every revision of every run. */
  lemma ContractAmountsStayKnown(states: seq<System>, steps: seq<Step>, id: nat)
    requires IsRun(ContractFacts, states, steps) && id in states[|steps|].store.rows
    ensures var values := states[|steps|].store.rows[id].values;
            "gross_amount" in values && values["gross_amount"].Some? && "currency" in values && values["currency"].Some?
  {
    hide Next, IsChain;
    EveryRunKeepsInv(ContractFacts, states, steps);
    var known := states[|steps|].store.rows[id].values;
    assert RequiredKnown(ContractFacts, known);
    assert "gross_amount" in RequiredOf(ContractFacts) && "currency" in RequiredOf(ContractFacts);
  }

  /** A ContractItem has no such guard: a field it knows survives a revision exactly when the call
      does not assert that field as NULL. */
  lemma ItemFieldSurvives(s: Store, c: ReviseCall, r: Revision, f: string)
    requires s.scope.ItemFacts? && StoreInv(s) && Prepares(s, c, r)
    requires f in s.rows[c.basedOn].values && s.rows[c.basedOn].values[f].Some?
    ensures f in r.values
    ensures r.values[f].Some? <==> !(f in c.fields && c.fields[f].None?)
  {
  }

  /** The guard is really missing: a correction may turn a known unit into an unknown one. */
  lemma ItemFieldMayBeForgotten()
    ensures exists s: Store, c: ReviseCall, r: Revision ::
              && s.scope.ItemFacts? && StoreInv(s) && Prepares(s, c, r)
              && "unit" in s.rows[c.basedOn].values && s.rows[c.basedOn].values["unit"].Some?
              && "unit" in r.values && r.values["unit"].None?
  {
    var empty := Store(ItemFacts, 0, {7}, {8, 9}, map[], map[]);
    var create := CreateCall(ItemIdentity(7, "k"), map["unit" := Some(Text("kg"))], 8);
    assert StoreInv(empty);
    var s := Install(empty, create);
    InstallKeepsStore(empty, create);
    var c := ReviseCall(Correction, 0, 1, map["unit" := None], 9);
    assert "unit" in c.fields;
    assert forall id :: !BackedBy(s, 0, 9, id);
    assert IsCurrent(s, 0, 1);
    var r := Merged(s.rows[1], c, s.next);
    assert Prepares(s, c, r);
  }
}
