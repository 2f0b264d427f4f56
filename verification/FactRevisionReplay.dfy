/** What a call on record is answered in every later state, and when Contracts share an identity. */
module FactRevisionReplay {
  import opened Options
  import opened FactRevisionRules
  import opened FactRevisionTheorems

  // ---- Exact replay ----

  /** The call's revision is on record: same anchor, same evidence, same intent, same content. */
  ghost predicate Recorded(s: Store, c: ReviseCall) {
    && ReviseRefusal(s, c).None?
    && exists id :: BackedBy(s, c.anchor, c.fragment, id) && s.rows[id].kind == c.kind
         && AssertionOf(s.rows[id]) == c.fields
  }

  /** A prepared revision asserts exactly the fields of its call. */
  lemma PreparedAsserts(s: Store, c: ReviseCall, r: Revision)
    requires Prepares(s, c, r)
    ensures AssertionOf(r) == c.fields && r.kind == c.kind && r.anchor == c.anchor && r.fragment == c.fragment
  {
  }

  /** A commit that installs a prepared call puts it on record. */
  lemma CommitRecords(y: System, w: nat, c: ReviseCall)
    requires Inv(y) && w in y.pending && ReviseRefusal(y.store, c).None?
    requires var p := y.pending[w];
             && p.basedOn == c.basedOn && p.revision.anchor == c.anchor && p.revision.fragment == c.fragment
             && p.revision.kind == c.kind && AssertionOf(p.revision) == c.fields
             && CanAppend(y.store, p.revision, p.basedOn)
    ensures Recorded(Append(y.store, y.pending[w].revision, y.pending[w].basedOn), c)
  {
    var p := y.pending[w];
    assert BackedBy(Append(y.store, p.revision, p.basedOn), c.anchor, c.fragment, p.revision.id);
  }

  /** Rows are only ever added or retired: everything else about a revision is final. */
  ghost predicate Keeps(s: Store, s': Store) {
    && s'.scope == s.scope
    && s.contracts <= s'.contracts && s.fragments <= s'.fragments
    && (forall a :: a in s.anchors ==> a in s'.anchors && s'.anchors[a] == s.anchors[a])
    && (forall id :: id in s.rows ==>
          id in s'.rows && s'.rows[id] == s.rows[id].(supersededBy := s'.rows[id].supersededBy))
  }

  lemma AppendKeepsRows(s: Store, p: Pending)
    requires PendingInv(s, p)
    ensures Keeps(s, Append(s, p.revision, p.basedOn))
  {
    hide Carries, RequiredKnown;
  }

  lemma PlantKeepsRows(s: Store, identity: Identity, r: Revision)
    requires StoreInv(s)
    ensures Keeps(s, Plant(s, identity, r))
  {
    hide IsChain, RequiredKnown;
  }

  lemma {:induction false} LedgerKeepsRows(y: System, ledger: seq<LedgerRow>)
    requires Inv(y) && y.store.scope.ContractFacts?
    ensures Keeps(y.store, ImportLedger(y.store, ledger))
  {
    hide StoreInv, PendingInv, Plant;
    if ledger == [] {
    } else {
      var front, last := ledger[..|ledger| - 1], ledger[|ledger| - 1];
      LedgerKeepsRows(y, front);
      LedgerKeepsInv(y, front);
      var s := ImportLedger(y.store, front);
      var s' := s.(fragments := s.fragments + {last.fragment});
      EvidenceKeepsInv(y.(store := s), s');
      PlantKeepsRows(s', LedgerIdentity(last), LedgerRevision(s, last));
    }
  }

  lemma StepKeepsRows(y: System, step: Step, y': System)
    requires Inv(y) && Next(y, step, y')
    ensures Keeps(y.store, y'.store)
  {
    hide StoreInv, PendingInv, Answers, Prepares, Append, Plant, CreateRefusal, AnswerExisting, ImportLedger;
    match step
    case Create(call, _) => PlantKeepsRows(y.store, call.identity, InitialRevision(y.store, call));
    case Import(ledger) => LedgerKeepsRows(y, ledger);
    case Commit(w) => AppendKeepsRows(y.store, y.pending[w]);
    case _ =>
  }

  lemma {:induction false} RunKeepsRows(scope: Scope, states: seq<System>, steps: seq<Step>, i: nat, j: nat)
    requires IsRun(scope, states, steps) && i <= j <= |steps|
    ensures Inv(states[i]) && Inv(states[j]) && Keeps(states[i].store, states[j].store)
    decreases j
  {
    hide Inv, Next;
    assert states[..i + 1][i] == states[i];
    EveryRunKeepsInv(scope, states[..i + 1], steps[..i]);
    assert states[..j + 1][j] == states[j];
    EveryRunKeepsInv(scope, states[..j + 1], steps[..j]);
    if i == j {
    } else {
      RunKeepsRows(scope, states, steps, i, j - 1);
      assert Next(states[j - 1], steps[j - 1], states[j]);
      StepKeepsRows(states[j - 1], steps[j - 1], states[j]);
    }
  }

  lemma KeepsRecorded(s: Store, s': Store, c: ReviseCall)
    requires Keeps(s, s') && Recorded(s, c)
    ensures Recorded(s', c)
  {
    hide FieldsValid;
    var id :| BackedBy(s, c.anchor, c.fragment, id) && s.rows[id].kind == c.kind && AssertionOf(s.rows[id]) == c.fields;
    assert BackedBy(s', c.anchor, c.fragment, id) && AssertionOf(s'.rows[id]) == c.fields;
  }

  /** A recorded call is answered as a replay, by no other answer, and prepares no revision. */
  lemma RecordedIsReplay(s: Store, c: ReviseCall)
    requires StoreInv(s) && Recorded(s, c)
    ensures forall o :: Answers(s, c, o) <==> o == Replay(c.anchor)
    ensures forall r :: !Prepares(s, c, r)
  {
    hide IsChain, FieldsValid, RequiredKnown;
    var id :| BackedBy(s, c.anchor, c.fragment, id) && s.rows[id].kind == c.kind && AssertionOf(s.rows[id]) == c.fields;
    forall x | BackedBy(s, c.anchor, c.fragment, x)
      ensures x == id
    {
    }
  }

  /** Exact replay is stable for ever: in every later state of every run, the same supplement or
      correction with the same evidence is a replay and writes nothing. */
  lemma ReplayForEver(scope: Scope, states: seq<System>, steps: seq<Step>, i: nat, j: nat, c: ReviseCall)
    requires IsRun(scope, states, steps) && i <= j <= |steps| && Recorded(states[i].store, c)
    ensures forall o :: Answers(states[j].store, c, o) <==> o == Replay(c.anchor)
    ensures forall r :: !Prepares(states[j].store, c, r)
  {
    hide Recorded, Keeps, Next, Answers, Prepares, StoreInv, PendingInv;
    RunKeepsRows(scope, states, steps, i, j);
    KeepsRecorded(states[i].store, states[j].store, c);
    RecordedIsReplay(states[j].store, c);
  }

  /** Between a writer's prepare and its commit its pending revision does not change. */
  lemma {:induction false} PendingStays(scope: Scope, states: seq<System>, steps: seq<Step>, i: nat, k: nat, w: nat)
    requires IsRun(scope, states, steps) && i <= k <= |steps| && w in states[i].pending
    requires forall m :: i <= m < k ==> steps[m] != Commit(w) && steps[m] != Abandon(w)
    ensures w in states[k].pending && states[k].pending[w] == states[i].pending[w]
    decreases k
  {
    hide Creates, Answers, Prepares, Append;
    if i == k {
    } else {
      PendingStays(scope, states, steps, i, k - 1, w);
      assert Next(states[k - 1], steps[k - 1], states[k]);
    }
  }

  /** A call that is prepared and later committed with its base still current is on record from then on. */
  lemma WrittenIsRecorded(scope: Scope, states: seq<System>, steps: seq<Step>, i: nat, k: nat, w: nat, c: ReviseCall)
    requires IsRun(scope, states, steps) && i < k < |steps|
    requires steps[i] == Prepare(w, c) && steps[k] == Commit(w)
    requires forall m :: i < m < k ==> steps[m] != Commit(w) && steps[m] != Abandon(w)
    requires w in states[k].pending && CanAppend(states[k].store, states[k].pending[w].revision, c.basedOn)
    ensures Recorded(states[k + 1].store, c)
  {
    hide Inv, Creates, Answers, Prepares, Append, ReviseRefusal, Recorded, CanAppend, AssertionOf;
    assert Next(states[i], steps[i], states[i + 1]) && Next(states[k], steps[k], states[k + 1]);
    var r :| Prepares(states[i].store, c, r) && states[i + 1].pending == states[i].pending[w := Pending(c.basedOn, r)];
    PreparedAsserts(states[i].store, c, r);
    PreparedNotRefused(states[i].store, c, r);
    PendingStays(scope, states, steps, i + 1, k, w);
    RunKeepsRows(scope, states, steps, i, k);
    KeepsNotRefused(states[i].store, states[k].store, c);
    CommitRecords(states[k], w, c);
  }

  lemma PreparedNotRefused(s: Store, c: ReviseCall, r: Revision)
    requires Prepares(s, c, r)
    ensures ReviseRefusal(s, c).None?
  {
  }

  lemma KeepsNotRefused(s: Store, s': Store, c: ReviseCall)
    requires Keeps(s, s') && ReviseRefusal(s, c).None?
    ensures ReviseRefusal(s', c).None?
  {
  }

  ghost predicate CreateRecorded(s: Store, c: CreateCall) {
    && CreateRefusal(s, c).None?
    && exists a, id :: HasIdentity(s, a, c.identity) && IsInitial(s, a, id) && s.rows[id].fragment == c.fragment
                       && AssertionOf(s.rows[id]) == NonNull(c.fields)
  }

  lemma InstallRecords(s: Store, c: CreateCall)
    requires CreateRefusal(s, c).None?
    ensures CreateRecorded(Install(s, c), c)
  {
    hide TaxCodeValid;
    var s' := Install(s, c);
    assert HasIdentity(s', s.next, c.identity) && IsInitial(s', s.next, s.next + 1);
    assert AssertionOf(s'.rows[s.next + 1]) == NonNull(c.fields);
  }

  /** A ledger row records no field names; a create call with its known fields and its evidence is on record
      all the same. */
  lemma LedgerRowRecords(s: Store, row: LedgerRow)
    requires s.scope.ContractFacts? && row.no != ""
    ensures CreateRecorded(AddLedgerRow(s, row),
                           CreateCall(LedgerIdentity(row), NonNull(LedgerValues(row)), row.fragment))
  {
    var s' := AddLedgerRow(s, row);
    var r := s'.rows[s.next + 1];
    assert HasIdentity(s', s.next, LedgerIdentity(row)) && IsInitial(s', s.next, s.next + 1);
    assert NonNull(LedgerValues(row)).Keys <= CONTRACT_FIELDS;
    assert AssertionOf(r) == NonNull(LedgerValues(row)) == NonNull(NonNull(LedgerValues(row)));
  }

  /** A create call on record is answered as a replay exactly when one anchor bears its identity, and as
      ambiguous exactly when several do; it writes nothing. */
  lemma CreateRecordedAnswer(s: Store, c: CreateCall, o: Outcome, s': Store)
    requires StoreInv(s) && CreateRecorded(s, c) && Creates(s, c, o, s')
    ensures s' == s
    ensures o.Replay? && HasIdentity(s, o.anchor, c.identity) <==> |AnchorsOf(s, c.identity)| == 1
    ensures o == Rejected(AmbiguousIdentity) <==> |AnchorsOf(s, c.identity)| > 1
    ensures |AnchorsOf(s, c.identity)| >= 1
  {
    hide FieldsValid, RequiredKnown, IsChain;
    var a, id :| HasIdentity(s, a, c.identity) && IsInitial(s, a, id) && s.rows[id].fragment == c.fragment
                 && AssertionOf(s.rows[id]) == NonNull(c.fields);
    var matches := AnchorsOf(s, c.identity);
    assert a in matches;
    if |matches| == 1 {
      OnlyMember(matches, a);
      OneHeadOneTail(s, a);
    }
  }

  lemma OnlyMember(s: set<nat>, x: nat)
    requires |s| == 1 && x in s
    ensures s == {x}
  {
    assert |s - {x}| == 0;
  }

  /** A ContractItem's identity is its own, so a create call on record is always a replay. */
  lemma ItemCreateIsReplay(s: Store, c: CreateCall, o: Outcome, s': Store)
    requires s.scope.ItemFacts? && StoreInv(s) && CreateRecorded(s, c) && Creates(s, c, o, s')
    ensures o.Replay? && HasIdentity(s, o.anchor, c.identity) && s' == s
  {
    hide Creates, CreateRecorded;
    CreateRecordedAnswer(s, c, o, s');
    OneItemAnchor(s, c.identity);
  }

  lemma OneItemAnchor(s: Store, identity: Identity)
    requires s.scope.ItemFacts? && StoreInv(s)
    ensures |AnchorsOf(s, identity)| <= 1
  {
    hide IsChain, RequiredKnown;
    var matches := AnchorsOf(s, identity);
    if a :| a in matches {
      assert matches == {a};
    }
  }

  lemma KeepsCreateRecorded(s: Store, s': Store, c: CreateCall)
    requires Keeps(s, s') && CreateRecorded(s, c)
    ensures CreateRecorded(s', c)
  {
    hide FieldsValid;
    var a, id :| HasIdentity(s, a, c.identity) && IsInitial(s, a, id) && s.rows[id].fragment == c.fragment
                 && AssertionOf(s.rows[id]) == NonNull(c.fields);
    assert HasIdentity(s', a, c.identity) && IsInitial(s', a, id) && AssertionOf(s'.rows[id]) == NonNull(c.fields);
  }

  /** ... and so is, for ContractItems, a create call that once created its anchor. */
  lemma CreateReplayForEver(
      states: seq<System>, steps: seq<Step>, i: nat, j: nat, c: CreateCall, o: Outcome, s': Store)
    requires IsRun(ItemFacts, states, steps) && i <= j <= |steps| && CreateRecorded(states[i].store, c)
    requires Creates(states[j].store, c, o, s')
    ensures o.Replay? && HasIdentity(states[j].store, o.anchor, c.identity) && s' == states[j].store
  {
    hide CreateRecorded, Keeps, Next, Creates, StoreInv, PendingInv;
    RunKeepsRows(ItemFacts, states, steps, i, j);
    KeepsCreateRecorded(states[i].store, states[j].store, c);
    RunScope(ItemFacts, states, steps, j);
    ItemCreateIsReplay(states[j].store, c, o, s');
  }

  lemma RunScope(scope: Scope, states: seq<System>, steps: seq<Step>, j: nat)
    requires IsRun(scope, states, steps) && j <= |steps|
    ensures states[j].store.scope == scope
  {
    hide Next, Inv;
    assert states[..j + 1][j] == states[j];
    EveryRunKeepsInv(scope, states[..j + 1], steps[..j]);
  }

  // ---- How many Contracts bear one identity ----

  lemma PlantCounts(s: Store, of: Identity, r: Revision, identity: Identity)
    requires StoreInv(s)
    ensures |AnchorsOf(Plant(s, of, r), identity)| == |AnchorsOf(s, identity)| + (if of == identity then 1 else 0)
  {
    hide IsChain, RequiredKnown;
    var after := AnchorsOf(Plant(s, of, r), identity);
    if of == identity {
      assert after == AnchorsOf(s, identity) + {s.next};
    } else {
      assert after == AnchorsOf(s, identity);
    }
  }

  lemma {:induction false} LedgerCounts(y: System, ledger: seq<LedgerRow>, identity: Identity)
    requires Inv(y) && y.store.scope.ContractFacts?
    ensures |AnchorsOf(ImportLedger(y.store, ledger), identity)|
         == |AnchorsOf(y.store, identity)| + RowsNaming(ledger, identity)
  {
    hide StoreInv, PendingInv, Plant, LedgerIdentity, AnchorsOf;
    if ledger == [] {
    } else {
      var front, last := ledger[..|ledger| - 1], ledger[|ledger| - 1];
      LedgerCounts(y, front, identity);
      LedgerKeepsInv(y, front);
      var s := ImportLedger(y.store, front);
      var s' := s.(fragments := s.fragments + {last.fragment});
      EvidenceKeepsInv(y.(store := s), s');
      SameAnchors(s, s', identity);
      PlantCounts(s', LedgerIdentity(last), LedgerRevision(s, last), identity);
    }
  }

  lemma SameAnchors(s: Store, s': Store, identity: Identity)
    requires s.anchors == s'.anchors
    ensures AnchorsOf(s, identity) == AnchorsOf(s', identity)
  {
  }

  /** The ledger rows of an identity among the steps. */
  function RowsImported(steps: seq<Step>, identity: Identity): nat {
    if steps == [] then 0
    else
      var last := steps[|steps| - 1];
      RowsImported(steps[..|steps| - 1], identity) + (if last.Import? then RowsNaming(last.ledger, identity) else 0)
  }

  lemma StepCounts(y: System, step: Step, y': System, identity: Identity)
    requires Inv(y) && Next(y, step, y') && AnchorsOf(y.store, identity) != {}
    ensures |AnchorsOf(y'.store, identity)|
         == |AnchorsOf(y.store, identity)| + (if step.Import? then RowsNaming(step.ledger, identity) else 0)
  {
    hide Inv, AnchorsOf, Answers, Prepares, CreateRefusal, AnswerExisting, ImportLedger, Plant;
    match step
    case Create(call, _) =>
      if call.identity != identity && y'.store != y.store {
        InvGivesStore(y);
        PlantCounts(y.store, call.identity, InitialRevision(y.store, call), identity);
      }
    case Import(ledger) => LedgerCounts(y, ledger, identity);
    case Commit(w) => SameAnchors(y.store, y'.store, identity);
    case _ => SameAnchors(y.store, y'.store, identity);
  }

  lemma InvGivesStore(y: System)
    requires Inv(y)
    ensures StoreInv(y.store)
  {
  }

  /** Once an identity is borne, only ledger rows add bearers, one each. */
  lemma {:induction false} BearersCounted(states: seq<System>, steps: seq<Step>, i: nat, j: nat, identity: Identity)
    requires IsRun(ContractFacts, states, steps) && i <= j <= |steps| && AnchorsOf(states[i].store, identity) != {}
    ensures |AnchorsOf(states[j].store, identity)|
         == |AnchorsOf(states[i].store, identity)| + RowsImported(steps[i..j], identity)
    decreases j
  {
    hide Inv, Next, AnchorsOf, Keeps;
    if i == j {
    } else {
      BearersCounted(states, steps, i, j - 1, identity);
      RunKeepsRows(ContractFacts, states, steps, i, j - 1);
      assert Next(states[j - 1], steps[j - 1], states[j]);
      StepCounts(states[j - 1], steps[j - 1], states[j], identity);
      assert steps[i..j][..j - 1 - i] == steps[i..j - 1];
    }
  }

  /** For Contracts a create call on record stays a replay exactly as long as one anchor bears its identity and
      no ledger row names it; from then on, for ever, it is refused as ambiguous. */
  lemma ContractCreateReplayedUntilImported(
      states: seq<System>, steps: seq<Step>, i: nat, j: nat, c: CreateCall, o: Outcome, s': Store)
    requires IsRun(ContractFacts, states, steps) && i <= j <= |steps| && CreateRecorded(states[i].store, c)
    requires Creates(states[j].store, c, o, s')
    ensures s' == states[j].store
    ensures o.Replay? && HasIdentity(states[j].store, o.anchor, c.identity)
       <==> |AnchorsOf(states[i].store, c.identity)| == 1 && RowsImported(steps[i..j], c.identity) == 0
    ensures o == Rejected(AmbiguousIdentity)
       <==> |AnchorsOf(states[i].store, c.identity)| > 1 || RowsImported(steps[i..j], c.identity) > 0
  {
    hide CreateRecorded, Keeps, Next, Creates, StoreInv, PendingInv, AnchorsOf;
    RunKeepsRows(ContractFacts, states, steps, i, j);
    KeepsCreateRecorded(states[i].store, states[j].store, c);
    CreateRecordedAnswer(states[j].store, c, o, s');
    RecordedIsBorne(states[i].store, c);
    BearersCounted(states, steps, i, j, c.identity);
  }

  lemma RecordedIsBorne(s: Store, c: CreateCall)
    requires CreateRecorded(s, c)
    ensures AnchorsOf(s, c.identity) != {} && |AnchorsOf(s, c.identity)| >= 1
  {
    hide CreateRefusal, AssertionOf;
    var a :| HasIdentity(s, a, c.identity);
    assert a in AnchorsOf(s, c.identity);
  }

  /** Directly after it created its anchor, the same call is a replay. */
  lemma CreatesAgain(s: Store, c: CreateCall)
    requires StoreInv(s) && CreateRefusal(s, c).None? && AnchorsOf(s, c.identity) == {}
    ensures Creates(Install(s, c), c, Replay(s.next), Install(s, c))
  {
    hide FieldsValid, RequiredKnown, IsChain;
    InstallRecords(s, c);
    InitialAsserts(s, c);
    var s' := Install(s, c);
    assert AnchorsOf(s', c.identity) == {s.next};
    assert IsInitial(s', s.next, s.next + 1);
  }

  lemma InitialAsserts(s: Store, c: CreateCall)
    requires FieldsValid(s.scope, c.fields)
    ensures AssertionOf(InitialRevision(s, c)) == NonNull(c.fields)
  {
  }

  /** Once a ledger row names the identity of a Contract, a create call for it is ambiguous. */
  lemma CreateAmbiguous(s: Store, c: CreateCall, row: LedgerRow)
    requires StoreInv(s) && CreateRefusal(s, c).None? && AnchorsOf(s, c.identity) != {}
    requires s.scope.ContractFacts? && LedgerIdentity(row) == c.identity
    ensures Creates(AddLedgerRow(s, row), c, Rejected(AmbiguousIdentity), AddLedgerRow(s, row))
  {
    hide FieldsValid, StoreInv, AnchorsOf, Plant;
    var s1 := s.(fragments := s.fragments + {row.fragment});
    var none: map<nat, Pending> := map[];
    assert Inv(System(s, none));
    EvidenceKeepsInv(System(s, none), s1);
    SameAnchors(s, s1, c.identity);
    PlantCounts(s1, c.identity, LedgerRevision(s, row), c.identity);
    PlantKeepsRows(s1, c.identity, LedgerRevision(s, row));
    assert CreateRefusal(AddLedgerRow(s, row), c).None?;
  }

  /** A create call that starts a Contract, the same again, a ledger row that names it, and the same again. */
  function CreateAroundImport(c: CreateCall, row: LedgerRow): seq<Step> {
    [AddFragment(c.fragment), Create(c, Created(0)), Create(c, Replay(0)), Import([row]),
     Create(c, Rejected(AmbiguousIdentity))]
  }

  /** Such a run exists: the third answer is the ambiguity, though the import itself reports no conflict, since
      it compares only its own rows. */
  lemma LedgerRowMakesCreateAmbiguous()
    ensures exists states, c, row ::
              IsRun(ContractFacts, states, CreateAroundImport(c, row)) && ConflictingNumbers([row]) == {}
  {
    hide IsRun, ConflictingNumbers, CreateAroundImport;
    var fields := map["gross_amount" := Some(Number(5.0)), "currency" := Some(Text("CNY"))];
    var c := CreateCall(ContractIdentity("C-1", None), fields, 1);
    var row := LedgerRow("C-1", None, None, 7.0, 2);
    var states := AnyLedgerRow(c, row);
  }

  lemma AnyLedgerRow(c: CreateCall, row: LedgerRow) returns (states: seq<System>)
    requires c.identity.ContractIdentity? && c.identity.no != ""
    requires c.fields.Keys == {"gross_amount", "currency"} && forall f :: f in c.fields ==> c.fields[f].Some?
    requires LedgerIdentity(row) == c.identity && row.fragment != c.fragment
    ensures IsRun(ContractFacts, states, CreateAroundImport(c, row)) && ConflictingNumbers([row]) == {}
  {
    hide FieldsValid, StoreInv, Creates, AnchorsOf, Plant, Inv, CreateRefusal, ImportLedger, ConflictingNumbers;
    var none: map<nat, Pending> := map[];
    var y0 := Empty(ContractFacts);
    var s1 := y0.store.(fragments := {c.fragment});
    FirstCall(s1, c);
    var s2 := Install(s1, c);
    CreatesAgain(s1, c);
    SecondCall(s1, c);
    var s3 := AddLedgerRow(s2, row);
    CreateAmbiguous(s2, c, row);
    OneRow(s2, row);
    FollowsCreate(System(s1, none), c, Created(0), System(s2, none));
    FollowsCreate(System(s2, none), c, Replay(0), System(s2, none));
    FollowsCreate(System(s3, none), c, Rejected(AmbiguousIdentity), System(s3, none));
    states := [y0, System(s1, none), System(s2, none), System(s2, none), System(s3, none), System(s3, none)];
    assert Next(y0, AddFragment(c.fragment), states[1]);
    assert Next(states[3], Import([row]), states[4]);
    hide Next;
  }

  lemma FollowsCreate(y: System, c: CreateCall, o: Outcome, y': System)
    requires y'.pending == y.pending && Creates(y.store, c, o, y'.store)
    ensures Next(y, Create(c, o), y')
  {
  }

  /** A call that may create a Contract in a store without any. */
  lemma FirstCall(s: Store, c: CreateCall)
    requires s == Empty(ContractFacts).store.(fragments := {c.fragment})
    requires c.identity.ContractIdentity? && c.identity.no != ""
    requires c.fields.Keys == {"gross_amount", "currency"} && forall f :: f in c.fields ==> c.fields[f].Some?
    ensures StoreInv(s) && CreateRefusal(s, c).None? && AnchorsOf(s, c.identity) == {}
    ensures Creates(s, c, Created(s.next), Install(s, c))
  {
    assert AnchorsOf(s, c.identity) == {};
  }

  lemma SecondCall(s: Store, c: CreateCall)
    requires StoreInv(s) && CreateRefusal(s, c).None? && AnchorsOf(s, c.identity) == {}
    ensures var s' := Install(s, c);
            && StoreInv(s') && CreateRefusal(s', c).None? && AnchorsOf(s', c.identity) != {}
            && s'.scope == s.scope && s'.fragments == s.fragments && s'.next == s.next + 2
  {
    hide StoreInv, FieldsValid;
    InstallKeepsStore(s, c);
    assert s.next in AnchorsOf(Install(s, c), c.identity);
  }

  lemma OneRow(s: Store, row: LedgerRow)
    ensures ImportLedger(s, [row]) == AddLedgerRow(s, row) && ConflictingNumbers([row]) == {}
  {
    hide Plant;
    assert [row][..0] == [];
  }
}
