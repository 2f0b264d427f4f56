/** The stored revisions as the commands use them. */
module FactRevisionStore {
  import opened Options
  import opened FactRevisionRules
  import opened FactRevisionTheorems

  /** A prepared revision was installed in one go. */
  ghost predicate Revises(s: Store, c: ReviseCall, id: nat, s': Store) {
    exists r :: Prepares(s, c, r) && r.id == id && s' == Append(s.(next := s.next + 1), r, c.basedOn)
                && s'.rows[id] == r && IsCurrent(s', c.anchor, id)
  }

  lemma AnswersWriteNothing(s: Store, c: ReviseCall, o: Outcome)
    requires Answers(s, c, o)
    ensures !o.Written? && !o.Created?
  {
  }

  lemma PreparedCanAppend(s: Store, c: ReviseCall, r: Revision)
    requires StoreInv(s) && Prepares(s, c, r)
    ensures var s1 := s.(next := s.next + 1);
            && CanAppend(s1, r, c.basedOn)
            && StoreInv(Append(s1, r, c.basedOn))
            && Revises(s, c, r.id, Append(s1, r, c.basedOn))
  {
    hide IsChain, Carries, RequiredKnown, FieldsValid;
    PrepareKeepsInv(System(s, map[]), 0, c, r);
    var s1 := s.(next := s.next + 1);
    var p := Pending(c.basedOn, r);
    var y := System(s1, map[0 := p]);
    assert Inv(y) by {
      assert map[][0 := p] == map[0 := p];
    }
    assert 0 in y.pending && y.pending[0] == p;
    AppendKeepsStore(s1, p);
  }

  /** The anchors, from `first` on, that a ledger's rows of a number become. */
  function Bearers(ledger: seq<LedgerRow>, first: nat, no: string): seq<nat> {
    if ledger == [] then []
    else
      var n := |ledger| - 1;
      Bearers(ledger[..n], first, no) + (if ledger[n].no == no then [first + 2 * n] else [])
  }

  /** Several rows become anchors of a number exactly when the number is reported as conflicting. */
  lemma {:induction false} BearersConflict(ledger: seq<LedgerRow>, first: nat, no: string)
    ensures Bearers(ledger, first, no) != [] <==> exists i :: 0 <= i < |ledger| && ledger[i].no == no
    ensures |Bearers(ledger, first, no)| > 1 <==> no in ConflictingNumbers(ledger)
  {
    if ledger == [] {
    } else {
      var n := |ledger| - 1;
      BearersConflict(ledger[..n], first, no);
      assert no in ConflictingNumbers(ledger)
        <==> no in ConflictingNumbers(ledger[..n])
               || (ledger[n].no == no && exists i :: 0 <= i < n && ledger[i].no == no);
    }
  }

  lemma ImportKeepsStore(s: Store, ledger: seq<LedgerRow>)
    requires StoreInv(s) && s.scope.ContractFacts?
    ensures StoreInv(ImportLedger(s, ledger))
  {
    hide StoreInv, ImportLedger;
    LedgerKeepsInv(System(s, map[]), ledger);
  }

  lemma LedgerNone(s: Store, first: nat)
    ensures ImportLedger(s, []) == s && forall no :: Bearers([], first, no) == []
  {
  }

  lemma LedgerNext(s: Store, ledger: seq<LedgerRow>, i: nat, first: nat)
    requires i < |ledger|
    ensures ImportLedger(s, ledger[..i + 1]) == AddLedgerRow(ImportLedger(s, ledger[..i]), ledger[i])
    ensures forall no :: Bearers(ledger[..i + 1], first, no)
                      == Bearers(ledger[..i], first, no) + (if ledger[i].no == no then [first + 2 * i] else [])
  {
    hide AddLedgerRow;
    assert ledger[..i + 1][..i] == ledger[..i];
  }

  class FactStore {
    const scope: Scope
    var next: nat
    var contracts: set<nat>
    var fragments: set<nat>
    var anchors: map<nat, Identity>
    var rows: map<nat, Revision>

    ghost function State(): Store
      reads this
    {
      Store(scope, next, contracts, fragments, anchors, rows)
    }

    constructor (scope: Scope)
      ensures State() == Empty(scope).store && StoreInv(State())
    {
      this.scope := scope;
      next, contracts, fragments, anchors, rows := 0, {}, {}, map[], map[];
    }

    /** The create command: one atomic step under the write lock. */
    method CreateFact(call: CreateCall) returns (o: Outcome)
      requires StoreInv(State())
      modifies this`next, this`anchors, this`rows
      ensures Creates(old(State()), call, o, State()) && StoreInv(State())
    {
      hide IsChain, RequiredKnown, FieldsValid;
      ghost var s := State();
      var current := Store(scope, next, contracts, fragments, anchors, rows);
      var refusal := CreateRefusal(current, call);
      if refusal.Some? {
        return Rejected(refusal.value);
      }
      var matches := AnchorsOf(current, call.identity);
      if |matches| > 1 {
        return Rejected(AmbiguousIdentity);
      }
      if matches != {} {
        var a :| a in matches;
        OneHeadOneTail(s, a);
        var id :| id in rows && IsInitial(current, a, id);
        return AnswerExisting(a, rows[id], call);
      }
      InstallKeepsStore(s, call);
      var anchor, id := next, next + 1;
      anchors := anchors[anchor := call.identity];
      rows := rows[id := InitialRevision(current, call)];
      next := next + 2;
      o := Created(anchor);
    }

    /** The ledger import: one new Contract a row, and the numbers that several of its rows bear. */
    method ImportContractLedger(ledger: seq<LedgerRow>) returns (conflicts: map<string, seq<nat>>)
      requires StoreInv(State()) && NewLedger(State(), ledger)
      modifies this`next, this`fragments, this`anchors, this`rows
      ensures State() == ImportLedger(old(State()), ledger) && StoreInv(State())
      ensures conflicts == map no | no in ConflictingNumbers(ledger) :: Bearers(ledger, old(next), no)
    {
      hide StoreInv, ConflictingNumbers, Bearers, ImportLedger, LedgerValues;
      ghost var s := State();
      ImportKeepsStore(s, ledger);
      ghost var first := next;
      LedgerNone(s, first);
      var idsByNo: map<string, seq<nat>> := map[];
      for i := 0 to |ledger|
        invariant State() == ImportLedger(s, ledger[..i]) && next == first + 2 * i
        invariant forall no :: no in idsByNo <==> Bearers(ledger[..i], first, no) != []
        invariant forall no :: no in idsByNo ==> idsByNo[no] == Bearers(ledger[..i], first, no)
      {
        LedgerNext(s, ledger, i, first);
        var row := ledger[i];
        var anchor, id := next, next + 1;
        rows := rows[id := LedgerRevision(Store(scope, next, contracts, fragments, anchors, rows), row)];
        fragments := fragments + {row.fragment};
        anchors := anchors[anchor := LedgerIdentity(row)];
        next := next + 2;
        idsByNo := idsByNo[row.no := (if row.no in idsByNo then idsByNo[row.no] else []) + [anchor]];
      }
      assert ledger[..|ledger|] == ledger;
      forall no: string
        ensures no in ConflictingNumbers(ledger) <==> no in idsByNo && |idsByNo[no]| > 1
      {
        BearersConflict(ledger, first, no);
      }
      conflicts := map no | no in idsByNo && |idsByNo[no]| > 1 :: idsByNo[no];
    }

    /** The read half of a supplement or correction. */
    method Read(call: ReviseCall) returns (o: Option<Outcome>, r: Option<Revision>)
      requires StoreInv(State()) && !call.kind.Initial?
      modifies this`next
      ensures o.Some? <==> r.None?
      ensures o.Some? ==> State() == old(State()) && Answers(State(), call, o.value)
      ensures r.Some? ==> State() == old(State()).(next := old(next) + 1) && Prepares(old(State()), call, r.value)
    {
      hide IsChain, RequiredKnown, FieldsValid;
      var current := Store(scope, next, contracts, fragments, anchors, rows);
      var refusal := ReviseRefusal(current, call);
      if refusal.Some? {
        return Some(Rejected(refusal.value)), None;
      }
      if id :| id in rows && BackedBy(current, call.anchor, call.fragment, id) {
        return Some(AnswerReuse(rows[id], call)), None;
      }
      OneHeadOneTail(current, call.anchor);
      var tail :| tail in rows && IsCurrent(current, call.anchor, tail);
      if tail != call.basedOn {
        assert AnswerCurrent(rows[tail], call) == Rejected(StaleTarget);
        return Some(Rejected(StaleTarget)), None;
      }
      var conflict := IntentRefusal(rows[tail].values, call);
      if conflict.Some? {
        assert AnswerCurrent(rows[tail], call) == Rejected(conflict.value);
        return Some(Rejected(conflict.value)), None;
      }
      o, r := None, Some(Merged(rows[tail], call, next));
      next := next + 1;
    }

    /** The compare-and-swap. */
    method AppendRevision(r: Revision, basedOn: nat) returns (appended: bool)
      modifies this`rows
      ensures State() == Append(old(State()), r, basedOn) && (appended <==> CanAppend(old(State()), r, basedOn))
    {
      appended := basedOn in rows && rows[basedOn].anchor == r.anchor && rows[basedOn].supersededBy.None?;
      if appended {
        rows := rows[basedOn := rows[basedOn].(supersededBy := Some(r.id))];
        rows := rows[r.id := r];
      }
    }

    /** A supplement or correction under the write lock: without interference the swap cannot fail. */
    method ReviseFact(call: ReviseCall) returns (o: Outcome)
      requires StoreInv(State()) && !call.kind.Initial?
      modifies this`next, this`rows
      ensures StoreInv(State())
      ensures !o.Written? ==> State() == old(State()) && Answers(State(), call, o)
      ensures o.Written? ==> Revises(old(State()), call, o.revision, State())
    {
      hide StoreInv, Answers, Prepares, Append, CanAppend;
      ghost var s := State();
      var answer, prepared := Read(call);
      if answer.Some? {
        AnswersWriteNothing(s, call, answer.value);
        return answer.value;
      }
      var r := prepared.value;
      PreparedCanAppend(s, call, r);
      var appended := AppendRevision(r, call.basedOn);
      assert appended;
      o := Written(r.id);
    }

    /** The audit history: walk from the INITIAL revision along the successors. */
    method ListRevisions(anchor: nat) returns (ids: seq<nat>)
      requires StoreInv(State()) && anchor in anchors
      ensures IsChain(State(), anchor, ids)
    {
      hide RequiredKnown, Carries, StoreInv, IsChain;
      ghost var chain := ChainOf(State(), anchor);
      OneHeadOneTail(State(), anchor);
      var id :| id in rows && IsInitial(Store(scope, next, contracts, fragments, anchors, rows), anchor, id);
      HeadIsFirst(State(), anchor, chain, id);
      ids := [id];
      while rows[id].supersededBy.Some?
        invariant 0 < |ids| <= |chain| && ids == chain[..|ids|] && id == chain[|ids| - 1] && id in rows
        decreases |chain| - |ids|
      {
        SuccessorIs(State(), anchor, chain, |ids| - 1);
        id := rows[id].supersededBy.value;
        ids := ids + [id];
      }
      SuccessorIs(State(), anchor, chain, |ids| - 1);
      assert ids == chain;
    }
  }
}
