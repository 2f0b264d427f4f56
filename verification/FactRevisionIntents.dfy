/**
 What each command may change and when it is accepted, said of the stored revisions: a supplement only adds, a
 correction only replaces, and a create call is compared with what the INITIAL revision knows.
 */
module FactRevisionIntents {
  import opened Options
  import opened Strings
  import opened FactRevisionRules
  import opened FactRevisionTheorems
  import opened FactRevisionReplay

  // ---- What a revision may do to what was known before it ----

  /** A supplement keeps every known value; a correction changes known fields only; an INITIAL revision asserts what it
      knows. */
  ghost predicate Honest(before: Values, r: Revision) {
    && (r.kind.Supplement? ==>
          forall f :: f in before && before[f].Some? ==> f in r.values && r.values[f] == before[f])
    && (r.kind.Correction? ==>
          forall f :: f in r.values && !(f in before && before[f] == r.values[f]) ==> f in before && before[f].Some?)
  }

  ghost predicate HonestStore(s: Store) {
    && (forall x :: x in s.rows && s.rows[x].supersededBy.Some? && s.rows[x].supersededBy.value in s.rows ==>
          Honest(s.rows[x].values, s.rows[s.rows[x].supersededBy.value]))
    && (forall x :: x in s.rows && s.rows[x].kind.Initial? ==> AssertionOf(s.rows[x]) == NonNull(s.rows[x].values))
  }

  ghost predicate HonestSystem(y: System) {
    && HonestStore(y.store)
    && (forall w :: w in y.pending ==>
          y.pending[w].basedOn in y.store.rows
          && Honest(y.store.rows[y.pending[w].basedOn].values, y.pending[w].revision))
  }

  // ---- Every step keeps it ----

  lemma MergedIsHonest(s: Store, c: ReviseCall)
    requires StoreInv(s) && c.basedOn in s.rows && Prepares(s, c, Merged(s.rows[c.basedOn], c, s.next))
    ensures Honest(s.rows[c.basedOn].values, Merged(s.rows[c.basedOn], c, s.next))
  {
    hide StoreInv, ReviseRefusal;
  }

  lemma PlantIsHonest(s: Store, identity: Identity, r: Revision)
    requires StoreInv(s) && Starts(s, r) && HonestStore(s) && AssertionOf(r) == NonNull(r.values)
    requires forall x :: x in s.rows && s.rows[x].supersededBy.Some? ==> s.rows[x].supersededBy.value in s.rows
    ensures HonestStore(Plant(s, identity, r))
  {
    hide IsChain, RequiredKnown, Carries, AssertionOf, NonNull, Honest;
  }

  /** A superseded revision names one that is stored. */
  lemma SuccessorsStored(s: Store)
    requires StoreInv(s)
    ensures forall x :: x in s.rows && s.rows[x].supersededBy.Some? ==> s.rows[x].supersededBy.value in s.rows
  {
    hide IsChain, Carries, RequiredKnown;
    forall x | x in s.rows && s.rows[x].supersededBy.Some?
      ensures s.rows[x].supersededBy.value in s.rows
    {
      NoForks(s, s.rows[x].anchor, x, x);
    }
  }

  lemma AppendIsHonest(y: System, w: nat)
    requires Inv(y) && HonestSystem(y) && w in y.pending
    ensures HonestSystem(System(Append(y.store, y.pending[w].revision, y.pending[w].basedOn), y.pending - {w}))
  {
    hide StoreInv, Carries, RequiredKnown, AssertionOf, NonNull;
    var s, p := y.store, y.pending[w];
    SuccessorsStored(s);
    if CanAppend(s, p.revision, p.basedOn) {
      var s' := Append(s, p.revision, p.basedOn);
      assert p.revision.id !in s.rows && p.revision.supersededBy.None?;
      forall x | x in s'.rows && s'.rows[x].supersededBy.Some? && s'.rows[x].supersededBy.value in s'.rows
        ensures Honest(s'.rows[x].values, s'.rows[s'.rows[x].supersededBy.value])
      {
        if x != p.basedOn {
          assert x in s.rows && s'.rows[x] == s.rows[x];
        }
      }
      forall x | x in s'.rows && s'.rows[x].kind.Initial?
        ensures AssertionOf(s'.rows[x]) == NonNull(s'.rows[x].values)
      {
        RetiredAsserts(s.rows[p.basedOn], Some(p.revision.id));
      }
    }
  }

  lemma RetiredAsserts(r: Revision, successor: Option<nat>)
    ensures AssertionOf(r.(supersededBy := successor)) == AssertionOf(r)
  {
  }

  lemma LedgerRowIsHonest(s: Store, row: LedgerRow)
    ensures AssertionOf(LedgerRevision(s, row)) == NonNull(LedgerRevision(s, row).values)
  {
  }

  lemma InitialIsHonest(s: Store, c: CreateCall)
    requires FieldsValid(s.scope, c.fields)
    ensures AssertionOf(InitialRevision(s, c)) == NonNull(InitialRevision(s, c).values)
    ensures NonNull(InitialRevision(s, c).values) == NonNull(c.fields)
  {
  }

  lemma SameRowsHonest(s: Store, s': Store)
    requires HonestStore(s) && s'.rows == s.rows
    ensures HonestStore(s')
  {
  }

  lemma {:induction false} LedgerIsHonest(y: System, ledger: seq<LedgerRow>)
    requires Inv(y) && HonestStore(y.store) && y.store.scope.ContractFacts?
    ensures HonestStore(ImportLedger(y.store, ledger))
  {
    hide StoreInv, PendingInv, Plant, HonestStore;
    if ledger == [] {
    } else {
      var front, last := ledger[..|ledger| - 1], ledger[|ledger| - 1];
      LedgerIsHonest(y, front);
      LedgerKeepsInv(y, front);
      var s := ImportLedger(y.store, front);
      var s' := s.(fragments := s.fragments + {last.fragment});
      EvidenceKeepsInv(y.(store := s), s');
      LedgerStarts(s', last);
      LedgerRowIsHonest(s', last);
      SuccessorsStored(s');
      SameRowsHonest(s, s');
      PlantIsHonest(s', LedgerIdentity(last), LedgerRevision(s', last));
    }
  }

  lemma PendingStaysHonest(s: Store, s': Store, p: Pending)
    requires Keeps(s, s') && p.basedOn in s.rows && Honest(s.rows[p.basedOn].values, p.revision)
    ensures p.basedOn in s'.rows && Honest(s'.rows[p.basedOn].values, p.revision)
  {
    hide Honest;
  }

  lemma CreateIsHonest(s: Store, c: CreateCall, o: Outcome, s': Store)
    requires StoreInv(s) && HonestStore(s) && Creates(s, c, o, s')
    ensures HonestStore(s')
  {
    hide StoreInv, HonestStore, Starts, AnswerExisting, Plant, AnchorsOf, InitialRevision;
    if s' != s {
      InitialStarts(s, c);
      RefusalMeansValid(s, c);
      InitialIsHonest(s, c);
      SuccessorsStored(s);
      PlantIsHonest(s, c.identity, InitialRevision(s, c));
    }
  }

  lemma RefusalMeansValid(s: Store, c: CreateCall)
    requires CreateRefusal(s, c).None?
    ensures FieldsValid(s.scope, c.fields)
  {
  }

  lemma StepIsHonest(y: System, step: Step, y': System)
    requires Inv(y) && HonestSystem(y) && Next(y, step, y')
    ensures HonestSystem(y')
  {
    hide StoreInv, PendingInv, HonestStore, Honest, Creates, Answers, Prepares, Append, ImportLedger;
    StepKeepsRows(y, step, y');
    forall w | w in y.pending
      ensures y.pending[w].basedOn in y'.store.rows
              && Honest(y'.store.rows[y.pending[w].basedOn].values, y.pending[w].revision)
    {
      PendingStaysHonest(y.store, y'.store, y.pending[w]);
    }
    match step
    case Create(call, o) => CreateIsHonest(y.store, call, o, y'.store);
    case Import(ledger) => LedgerIsHonest(y, ledger);
    case Commit(w) => AppendIsHonest(y, w);
    case Prepare(w, call) =>
      SameRowsHonest(y.store, y'.store);
      var r :| Prepares(y.store, call, r) && y'.pending == y.pending[w := Pending(call.basedOn, r)];
      PreparedIsHonest(y.store, call, r);
    case _ => SameRowsHonest(y.store, y'.store);
  }

  lemma PreparedIsHonest(s: Store, c: ReviseCall, r: Revision)
    requires StoreInv(s) && Prepares(s, c, r)
    ensures c.basedOn in s.rows && Honest(s.rows[c.basedOn].values, r)
  {
    hide StoreInv, ReviseRefusal, Honest;
    MergedIsHonest(s, c);
  }

  lemma {:induction false} EveryRunIsHonest(scope: Scope, states: seq<System>, steps: seq<Step>)
    requires IsRun(scope, states, steps)
    ensures HonestSystem(states[|steps|])
  {
    hide Inv, Next, HonestSystem;
    if steps == [] {
      EmptyIsHonest(scope);
    } else {
      var n := |steps| - 1;
      EveryRunIsHonest(scope, states[..n + 1], steps[..n]);
      EveryRunKeepsInv(scope, states[..n + 1], steps[..n]);
      assert Next(states[n], steps[n], states[n + 1]);
      StepIsHonest(states[n], steps[n], states[n + 1]);
    }
  }

  lemma EmptyIsHonest(scope: Scope)
    ensures HonestSystem(Empty(scope))
  {
  }

  /** Over every run, along every chain: a SUPPLEMENT repeats whatever its predecessor knew, and a CORRECTION differs
      from it only in fields that were known there. */
  lemma IntentsKept(scope: Scope, states: seq<System>, steps: seq<Step>, a: nat, chain: seq<nat>, i: nat)
    requires IsRun(scope, states, steps) && IsChain(states[|steps|].store, a, chain) && 0 < i < |chain|
    ensures var rows := states[|steps|].store.rows;
            && chain[i - 1] in rows && chain[i] in rows
            && var before, r := rows[chain[i - 1]].values, rows[chain[i]];
               && before.Keys == r.values.Keys == FieldsOf(scope)
               && !r.kind.Initial?
               && (r.kind.Supplement? ==> forall f :: f in before && before[f].Some? ==> r.values[f] == before[f])
               && (r.kind.Correction? ==> forall f :: f in before && before[f] != r.values[f] ==> before[f].Some?)
  {
    hide Next, Inv, StoreInv, IsChain;
    EveryRunIsHonest(scope, states, steps);
    EveryRunKeepsInv(scope, states, steps);
    var s := states[|steps|].store;
    SuccessorIs(s, a, chain, i - 1);
    LinkedAt(s, a, chain, i);
    LinkedAt(s, a, chain, i - 1);
  }

  // ---- When a supplement or correction is accepted ----

  /** The fields belong to the fact; a tax code is a text of at most 64 characters, neither empty nor padded. */
  ghost predicate WellStated(scope: Scope, fields: Values) {
    && (forall f :: f in fields ==> f in FieldsOf(scope))
    && (scope.ItemFacts? && "tax_classification_code" in fields ==>
          match fields["tax_classification_code"]
          case None => true
          case Some(Number(_)) => false
          case Some(Text(code)) =>
            0 < |code| <= 64 && !IsSpace(code[0]) && !IsSpace(code[|code| - 1]))
  }

  /** The call names fields, an anchor and evidence on record; a Contract's call no unknown value. */
  ghost predicate WellFormed(s: Store, c: ReviseCall) {
    && WellStated(s.scope, c.fields) && c.fields.Keys != {}
    && (s.scope.ContractFacts? ==> forall f :: f in c.fields ==> c.fields[f].Some?)
    && c.anchor in s.anchors && c.fragment in s.fragments
  }

  /** Each asserted field is unknown to the current revision, or has the value asserted. */
  ghost predicate OnlyAdds(current: Values, fields: Values) {
    forall f :: f in fields && f in current && current[f].Some? ==> current[f] == fields[f]
  }

  /** Each asserted field is known to the current revision. */
  ghost predicate OnlyReplaces(current: Values, fields: Values) {
    forall f :: f in fields ==> f in current && current[f].Some?
  }

  lemma WellStatedIsValid(scope: Scope, fields: Values)
    ensures FieldsValid(scope, fields) <==> WellStated(scope, fields)
  {
  }

  lemma WellFormedIsNotRefused(s: Store, c: ReviseCall)
    ensures ReviseRefusal(s, c).None? <==> WellFormed(s, c)
  {
    hide FieldsValid, WellStated;
    WellStatedIsValid(s.scope, c.fields);
    assert c.fields == map[] <==> c.fields.Keys == {};
  }

  /** The fragment already backs a revision of the anchor. */
  ghost predicate FragmentUsed(s: Store, anchor: nat, fragment: nat) {
    exists x :: x in s.rows && s.rows[x].anchor == anchor && s.rows[x].fragment == fragment
  }

  lemma UsedIsBacked(s: Store, anchor: nat, fragment: nat)
    ensures FragmentUsed(s, anchor, fragment) <==> exists x :: BackedBy(s, anchor, fragment, x)
  {
    if FragmentUsed(s, anchor, fragment) {
      var x :| x in s.rows && s.rows[x].anchor == anchor && s.rows[x].fragment == fragment;
      assert BackedBy(s, anchor, fragment, x);
    }
  }

  /** A call is prepared exactly when it is well formed, its evidence is new to the anchor, its base is the anchor's
      current revision, and it keeps to its intent. */
  ghost predicate Acceptable(s: Store, c: ReviseCall) {
    && WellFormed(s, c) && !c.kind.Initial? && !FragmentUsed(s, c.anchor, c.fragment)
    && c.basedOn in s.rows && s.rows[c.basedOn].anchor == c.anchor && s.rows[c.basedOn].supersededBy.None?
    && (c.kind.Supplement? ==> OnlyAdds(s.rows[c.basedOn].values, c.fields))
    && (c.kind.Correction? ==> OnlyReplaces(s.rows[c.basedOn].values, c.fields))
  }

  lemma PreparedExactly(s: Store, c: ReviseCall)
    ensures (exists r :: Prepares(s, c, r)) <==> Acceptable(s, c)
  {
    hide ReviseRefusal, WellFormed;
    WellFormedIsNotRefused(s, c);
    UsedIsBacked(s, c.anchor, c.fragment);
    if Acceptable(s, c) {
      assert Prepares(s, c, Merged(s.rows[c.basedOn], c, s.next));
    }
  }

  /** What is prepared states the call's fields, and the current revision's elsewhere. */
  lemma PreparedStates(s: Store, c: ReviseCall, r: Revision)
    requires Prepares(s, c, r)
    ensures r.id == s.next && r.anchor == c.anchor && r.kind == c.kind && r.fragment == c.fragment
    ensures r.supersededBy.None? && r.asserted == Some(c.fields.Keys)
    ensures forall f :: f in c.fields ==> f in r.values && r.values[f] == c.fields[f]
    ensures forall f :: f in s.rows[c.basedOn].values && f !in c.fields ==>
              f in r.values && r.values[f] == s.rows[c.basedOn].values[f]
  {
  }

  // ---- What else a supplement or correction is answered ----

  /** Otherwise it is answered, and by this alone: evidence already used is a replay or a conflict; after that a base
      that is not current, a value already known, or nothing to correct. */
  lemma AnsweredExactly(s: Store, c: ReviseCall, o: Outcome)
    requires StoreInv(s) && WellFormed(s, c) && !c.kind.Initial?
    ensures Answers(s, c, o) <==>
              if FragmentUsed(s, c.anchor, c.fragment) then
                exists x ::
                  && x in s.rows && s.rows[x].anchor == c.anchor && s.rows[x].fragment == c.fragment
                  && o == (if s.rows[x].kind != c.kind then Rejected(ConflictIntent)
                           else if AssertionOf(s.rows[x]) != c.fields then Rejected(ConflictContent)
                           else Replay(c.anchor))
              else
                exists x ::
                  && x in s.rows && s.rows[x].anchor == c.anchor && s.rows[x].supersededBy.None?
                  && (o == Rejected(StaleTarget) <==> x != c.basedOn)
                  && (o == Rejected(AlreadyKnown) <==>
                        x == c.basedOn && c.kind.Supplement? && !OnlyAdds(s.rows[x].values, c.fields))
                  && (o == Rejected(NothingToCorrect) <==>
                        x == c.basedOn && c.kind.Correction? && !OnlyReplaces(s.rows[x].values, c.fields))
                  && o in {Rejected(StaleTarget), Rejected(AlreadyKnown), Rejected(NothingToCorrect)}
  {
    hide IsChain, RequiredKnown, ReviseRefusal, WellFormed;
    WellFormedIsNotRefused(s, c);
    UsedIsBacked(s, c.anchor, c.fragment);
    if FragmentUsed(s, c.anchor, c.fragment) {
      forall x, y | BackedBy(s, c.anchor, c.fragment, x) && BackedBy(s, c.anchor, c.fragment, y)
        ensures x == y
      {
      }
    } else {
      assert forall x :: IsCurrent(s, c.anchor, x) ==> s.rows[x].id == x;
    }
  }

  /** A call that is not well formed is rejected for the first of these reasons that holds. */
  lemma IllFormedExactly(s: Store, c: ReviseCall, o: Outcome)
    requires !WellFormed(s, c)
    ensures Answers(s, c, o) <==>
              o == Rejected(
                if !WellStated(s.scope, c.fields) then FieldInvalid
                else if c.fields.Keys == {} then NoFields
                else if s.scope.ContractFacts? && exists f :: f in c.fields && c.fields[f].None? then NullAsserted
                else if c.anchor !in s.anchors then AnchorNotFound
                else FragmentNotFound)
  {
    hide FieldsValid, WellStated;
    WellStatedIsValid(s.scope, c.fields);
    WellFormedIsNotRefused(s, c);
    assert c.fields == map[] <==> c.fields.Keys == {};
  }

  // ---- When a create call is accepted ----

  /** The call has a key, states known fields of the fact, and names a contract and evidence on record. */
  ghost predicate Creatable(s: Store, c: CreateCall) {
    && (match c.identity case ItemIdentity(_, key) => key != "" case ContractIdentity(no, _) => no != "")
    && WellStated(s.scope, c.fields)
    && (s.scope.ContractFacts? ==>
          && "gross_amount" in c.fields && c.fields["gross_amount"].Some?
          && "currency" in c.fields && c.fields["currency"].Some?)
    && (c.identity.ItemIdentity? ==> c.identity.contract in s.contracts)
    && c.fragment in s.fragments
  }

  lemma CreatableIsNotRefused(s: Store, c: CreateCall)
    ensures CreateRefusal(s, c).None? <==> Creatable(s, c)
  {
    hide FieldsValid, WellStated;
    WellStatedIsValid(s.scope, c.fields);
    assert s.scope.ContractFacts? ==> "gross_amount" in RequiredOf(s.scope) && "currency" in RequiredOf(s.scope);
  }

  /** A new anchor bears the identity, and its INITIAL revision knows exactly what the call states. */
  ghost predicate Creation(s: Store, c: CreateCall, anchor: nat, s': Store) {
    && anchor !in s.anchors && s'.anchors == s.anchors[anchor := c.identity]
    && exists id ::
         && id !in s.rows && s'.rows.Keys == s.rows.Keys + {id} && (forall x :: x in s.rows ==> s'.rows[x] == s.rows[x])
         && s'.rows[id].id == id && s'.rows[id].anchor == anchor && s'.rows[id].kind.Initial?
         && s'.rows[id].fragment == c.fragment && s'.rows[id].supersededBy.None?
         && NonNull(s'.rows[id].values) == NonNull(c.fields) && s'.rows[id].values.Keys == FieldsOf(s.scope)
  }

  /** A creatable call is answered by how many anchors bear its identity, and, if one does, by comparing what it states
      and cites with what that anchor's INITIAL revision knows and cites. */
  lemma CreatedExactly(s: Store, c: CreateCall, o: Outcome, s': Store)
    requires StoreInv(s) && HonestStore(s) && Creatable(s, c) && Creates(s, c, o, s')
    ensures o.Created? <==> forall a :: a in s.anchors ==> s.anchors[a] != c.identity
    ensures o.Created? ==> Creation(s, c, o.anchor, s')
    ensures o == Rejected(AmbiguousIdentity) <==>
              exists a, b :: a != b && a in s.anchors && b in s.anchors && s.anchors[a] == s.anchors[b] == c.identity
    ensures !o.Created? ==> s' == s
    ensures !o.Created? && o != Rejected(AmbiguousIdentity) ==>
              exists a, id ::
                && a in s.anchors && s.anchors[a] == c.identity && id in s.rows
                && s.rows[id].anchor == a && s.rows[id].kind.Initial?
                && var same, cited := NonNull(c.fields) == NonNull(s.rows[id].values), s.rows[id].fragment
                     == c.fragment;
                   o == (if same && cited then Replay(a)
                         else if same then Corroborating(a)
                         else if cited then Rejected(ConflictSameEvidence)
                         else Rejected(ConflictOtherEvidence))
  {
    hide IsChain, RequiredKnown, FieldsValid, WellStated, Creatable, CreateRefusal, AssertionOf, NonNull, AnchorsOf;
    CreatableIsNotRefused(s, c);
    BearersAre(s, c.identity);
    if o.Created? {
      RefusalMeansValid(s, c);
      InitialIsHonest(s, c);
      assert s'.rows[s.next + 1] == InitialRevision(s, c);
      assert s.next + 1 !in s.rows && s.next !in s.anchors;
    }
  }

  lemma BearersAre(s: Store, identity: Identity)
    ensures AnchorsOf(s, identity) == {} <==> forall a :: a in s.anchors ==> s.anchors[a] != identity
    ensures |AnchorsOf(s, identity)| > 1 <==>
              exists a, b :: a != b && a in s.anchors && b in s.anchors && s.anchors[a] == s.anchors[b] == identity
    ensures forall a :: a in AnchorsOf(s, identity) <==> a in s.anchors && s.anchors[a] == identity
  {
    var bearers := AnchorsOf(s, identity);
    if |bearers| > 1 {
      var a :| a in bearers;
      assert |bearers - {a}| > 0;
      var b :| b in bearers - {a};
    }
    if a, b :| a != b && a in s.anchors && b in s.anchors && s.anchors[a] == s.anchors[b] == identity {
      assert {a, b} <= bearers;
      assert |bearers - {a}| > 0 && b in bearers - {a};
    }
    forall a | a in s.anchors && s.anchors[a] == identity
      ensures a in bearers
    {
    }
  }

  // ---- What a ledger import records ----

  /** The k-th row's Contract bears its number and counterparty, and its INITIAL revision knows the row's amount in CNY,
      its buyer if any, the fixed type and no date. */
  ghost predicate RowRecorded(s: Store, anchor: nat, row: LedgerRow) {
    && anchor in s.anchors && s.anchors[anchor] == ContractIdentity(row.no, row.party)
    && anchor + 1 in s.rows && row.fragment in s.fragments
    && var r := s.rows[anchor + 1];
       && r.anchor == anchor && r.kind.Initial? && r.fragment == row.fragment && r.supersededBy.None?
       && r.values == map[
            "contract_type" := Some(Text("出口报关购销合同")), "gross_amount" := Some(Number(row.gross)),
            "currency" := Some(Text("CNY")), "contract_date" := None,
            "buyer" := match row.buyer case Some(name) => Some(Text(name)) case None => None]
  }

  lemma RowRecords(s: Store, row: LedgerRow)
    ensures RowRecorded(AddLedgerRow(s, row), s.next, row)
  {
  }

  /** After an import every row is so recorded, each under an anchor of its own, in the rows' order. */
  lemma {:induction false} LedgerRecorded(y: System, ledger: seq<LedgerRow>, k: nat)
    requires Inv(y) && y.store.scope.ContractFacts?
    ensures ImportLedger(y.store, ledger).next == y.store.next + 2 * |ledger|
    ensures k < |ledger| ==> RowRecorded(ImportLedger(y.store, ledger), y.store.next + 2 * k, ledger[k])
  {
    hide Inv, RowRecorded;
    if ledger == [] {
    } else {
      var n := |ledger| - 1;
      LedgerRecorded(y, ledger[..n], k);
      LedgerKeepsInv(y, ledger[..n]);
      var s := ImportLedger(y.store, ledger[..n]);
      RowRecords(s, ledger[n]);
      if k < n {
        InvGivesStore(y.(store := s));
        RowStaysRecorded(s, ledger[n], y.store.next + 2 * k, ledger[k]);
      }
    }
  }

  lemma RowStaysRecorded(s: Store, later: LedgerRow, anchor: nat, row: LedgerRow)
    requires StoreInv(s) && RowRecorded(s, anchor, row)
    ensures RowRecorded(AddLedgerRow(s, later), anchor, row)
  {
    hide IsChain, RequiredKnown;
  }
}
