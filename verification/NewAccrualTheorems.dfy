/** What the new-accrual half of the preview guarantees. */
module NewAccrualTheorems {
  import opened Options
  import opened Sequences
  import opened PeriodCloseRules
  import opened PeriodCloseTheorems
  import opened PeriodCloseOrder
  import opened NewAccrualRules

  // ---- One contract ----

  /** An item of the contract that still needs an accrual. */
  ghost predicate Outstanding(b: Books, contract: nat, item: ContractItem) {
    && item in b.listing && item.contract == contract && item.quantity.Some?
    && OpenAccruals(b.facts, item.id) == []
    && exists x :: x in b.bases && x.contract == contract && x.perItem && x.item == Some(item.id)
  }

  ghost predicate Due(b: Books, end: int, contract: nat) {
    && (exists c :: c in b.costs && c.contract == contract && c.date <= end)
    && !Suppressed(b, contract, end)
  }

  lemma DueMeansRecognised(b: Books, end: int, contract: nat)
    ensures Due(b, end, contract) <==> Recognitions(b, contract, end) != [] && !Suppressed(b, contract, end)
  {
    if Recognitions(b, contract, end) != [] {
      assert Recognitions(b, contract, end)[0] in Recognitions(b, contract, end);
    }
  }

  lemma BasisKnown(b: Books, contract: nat, item: nat)
    ensures LastFor(ItemBases(b, contract), item).Some? <==>
      exists x :: x in b.bases && x.contract == contract && x.perItem && x.item == Some(item)
  {
  }

  lemma {:induction false} RowOrigin(b: Books, contract: nat, recognition: CostFact, items: seq<ContractItem>,
      r: AccrualRequired)
    requires r in RowsFor(b, contract, recognition, items)
    ensures exists i ::
              && i in items && i.id == r.item && OpenAccruals(b.facts, i.id) == []
              && LastFor(ItemBases(b, contract), i.id).Some?
              && r == Row(b, contract, recognition, LastFor(ItemBases(b, contract), i.id).value, i)
  {
    hide ItemBases, LastFor, OpenAccruals;
    var front, last := items[..|items| - 1], items[|items| - 1];
    assert last in items;
    if r in RowsFor(b, contract, recognition, front) {
      RowOrigin(b, contract, recognition, front, r);
    }
  }

  /** What is due yields requirements for exactly the outstanding items, if there are any. */
  lemma RequiredExactly(b: Books, end: int, contract: nat, item: ContractItem)
    requires WellKept(b) && item in b.listing
    ensures (FreshOf(b, end, contract).Required?
             && exists r :: r in FreshOf(b, end, contract).rows && r.item == item.id)
       <==> Due(b, end, contract) && Outstanding(b, contract, item)
  {
    hide RowsFor, ItemBases, LastFor, OpenAccruals, Suppressed, HasOpenItem, ContractBases, Due, Recognitions;
    DueMeansRecognised(b, end, contract);
    BasisKnown(b, contract, item.id);
    var o := FreshOf(b, end, contract);
    if o.Required? && exists r :: r in o.rows && r.item == item.id {
      var r :| r in o.rows && r.item == item.id;
      RowOrigin(b, contract, Earliest(Recognitions(b, contract, end)), Complete(b, contract), r);
    }
    if Due(b, end, contract) && Outstanding(b, contract, item) {
      assert item in Complete(b, contract);
    }
  }

  ghost predicate AnyOutstanding(b: Books, contract: nat) { exists i :: Outstanding(b, contract, i) }

  ghost predicate AnyBasis(b: Books, contract: nat) { exists x :: x in b.bases && x.contract == contract }

  lemma BasesKnown(b: Books, contract: nat)
    ensures AnyBasis(b, contract) <==> ItemBases(b, contract) != [] || ContractBases(b, contract) != []
  {
    if x :| x in b.bases && x.contract == contract {
      assert x in ItemBases(b, contract) || x in ContractBases(b, contract);
    }
    if ItemBases(b, contract) != [] {
      assert ItemBases(b, contract)[0] in ItemBases(b, contract);
    }
    if ContractBases(b, contract) != [] {
      assert ContractBases(b, contract)[0] in ContractBases(b, contract);
    }
  }

  lemma RowsExactly(b: Books, contract: nat, recognition: CostFact)
    requires WellKept(b)
    ensures RowsFor(b, contract, recognition, Complete(b, contract)) != [] <==> AnyOutstanding(b, contract)
  {
    hide RowsFor, ItemBases, LastFor, OpenAccruals;
    var rows := RowsFor(b, contract, recognition, Complete(b, contract));
    if rows != [] {
      assert rows[0] in rows;
      RowOrigin(b, contract, recognition, Complete(b, contract), rows[0]);
      var i :| i in Complete(b, contract) && i.id == rows[0].item && OpenAccruals(b.facts, i.id) == []
        && LastFor(ItemBases(b, contract), i.id).Some?;
      BasisKnown(b, contract, i.id);
      assert Outstanding(b, contract, i);
    }
    if i :| Outstanding(b, contract, i) {
      BasisKnown(b, contract, i.id);
      assert i in Complete(b, contract);
    }
  }

  /** When each kind of outcome arises, for what is due. */
  lemma OutcomeExactly(b: Books, end: int, contract: nat)
    requires WellKept(b) && Due(b, end, contract)
    ensures var o := FreshOf(b, end, contract);
            && (o.Required? <==> AnyOutstanding(b, contract))
            && (o.Proposed? <==>
                  !AnyOutstanding(b, contract) && Complete(b, contract) == [] && ContractBases(b, contract) != [])
            && (o.NoBasis? <==> !AnyOutstanding(b, contract) && (AnyBasis(b, contract) || !HasOpenItem(b, contract))
                                && (AnyBasis(b, contract) ==> Complete(b, contract) != []))
  {
    hide RowsFor, ItemBases, OpenAccruals, Suppressed, HasOpenItem, ContractBases, Due, Recognitions, Complete,
      AnyOutstanding, AnyBasis;
    DueMeansRecognised(b, end, contract);
    RowsExactly(b, contract, Earliest(Recognitions(b, contract, end)));
    BasesKnown(b, contract);
  }

  /**
   A missing basis is reported although a basis is recorded, exactly when something complete is due, nothing is
   outstanding and there is a basis: for one, when every complete item is already guarded by an open accrual.
   */
  lemma NoBasisDespiteBasis(b: Books, end: int, contract: nat)
    requires WellKept(b) && Due(b, end, contract)
    ensures FreshOf(b, end, contract).NoBasis? && AnyBasis(b, contract) <==>
      AnyBasis(b, contract) && Complete(b, contract) != [] && !AnyOutstanding(b, contract)
  {
    hide *;
    OutcomeExactly(b, end, contract);
  }

  const GUARDED_ITEM := ContractItem(1, 1, "A", Some(1.0))
  const GUARD := Accrual(1, 1, 1.0, 1.0, 1)
  const GUARDED_BASIS := BasisFact(1, 1, true, Some(1), Some(1.0), 1.0, 0)
  const GUARDED := Books(Facts(map[1 := GUARDED_ITEM], [GUARD], [], [], map[], map[], []), [1], [GUARDED_ITEM],
                         [CostFact(1, 1, 0)], [GUARDED_BASIS])

  lemma GuardIsOpen()
    ensures OpenAccruals(GUARDED.facts, 1) != []
  {
    assert IsOpen(GUARD, []);
    assert GUARD in GUARDED.facts.accruals;
    HasOpenAccruals(GUARDED.facts, 1);
  }

  lemma GuardedIsDue()
    ensures WellKept(GUARDED) && Due(GUARDED, 0, 1) && AnyBasis(GUARDED, 1)
  {
    hide OpenAccruals;
    assert GUARDED.costs[0] in GUARDED.costs && GUARDED_BASIS in GUARDED.bases;
  }

  /** One complete item, guarded by its open accrual and with a basis on record: a missing basis all the same. */
  lemma GuardedItemReportedWithoutBasis()
    ensures WellKept(GUARDED) && HasOpenItem(GUARDED, 1) && AnyBasis(GUARDED, 1) && FreshOf(GUARDED, 0, 1).NoBasis?
  {
    hide OpenAccruals, FreshOf, Due, WellKept, AnyBasis;
    GuardIsOpen();
    GuardedIsDue();
    assert GUARDED_ITEM in GUARDED.listing;
    assert GUARDED_ITEM in Complete(GUARDED, 1);
    OutcomeExactly(GUARDED, 0, 1);
  }

  /** What is due passes unmentioned in two cases: all guarded without a basis, or only an incomplete item has one. */
  lemma SilentExactly(b: Books, end: int, contract: nat)
    requires WellKept(b) && Due(b, end, contract)
    ensures FreshOf(b, end, contract).Quiet? <==>
      !AnyOutstanding(b, contract)
      && if AnyBasis(b, contract) then Complete(b, contract) == [] && ContractBases(b, contract) == []
           else HasOpenItem(b, contract)
  {
    hide RowsFor, ItemBases, OpenAccruals, Suppressed, HasOpenItem, ContractBases, Due, Recognitions, Complete,
      AnyOutstanding, AnyBasis;
    DueMeansRecognised(b, end, contract);
    RowsExactly(b, contract, Earliest(Recognitions(b, contract, end)));
    BasesKnown(b, contract);
  }

  const INCOMPLETE_ITEM := ContractItem(1, 1, "A", None)
  const INCOMPLETE := Books(Facts(map[1 := INCOMPLETE_ITEM], [], [], [], map[], map[], []), [1], [INCOMPLETE_ITEM],
                            [CostFact(1, 1, 0)], [GUARDED_BASIS])

  /** One item without a quantity, no accrual on it, due and with a basis on record: not mentioned at all. */
  lemma IncompleteItemNotMentioned()
    ensures WellKept(INCOMPLETE) && Due(INCOMPLETE, 0, 1) && AnyBasis(INCOMPLETE, 1) && !HasOpenItem(INCOMPLETE, 1)
    ensures NeedsOf(INCOMPLETE, 0, INCOMPLETE.contracts) == Needs([], [], [])
  {
    hide FreshOf, OpenAccruals;
    assert INCOMPLETE.costs[0] in INCOMPLETE.costs && GUARDED_BASIS in INCOMPLETE.bases;
    NothingOpen(INCOMPLETE.facts);
    NothingComplete();
    SilentExactly(INCOMPLETE, 0, 1);
    assert INCOMPLETE.contracts[..0] == [];
  }

  lemma NothingOpen(f: Facts)
    requires f.accruals == []
    ensures forall item :: OpenAccruals(f, item) == []
  {
  }

  lemma NothingComplete()
    ensures Complete(INCOMPLETE, 1) == [] && ContractBases(INCOMPLETE, 1) == [] && !AnyOutstanding(INCOMPLETE, 1)
  {
    assert forall i :: i in INCOMPLETE.listing ==> i == INCOMPLETE_ITEM;
    assert forall x :: x in INCOMPLETE.bases ==> x.perItem;
    assert forall x :: x !in ContractBases(INCOMPLETE, 1);
    assert forall i :: i !in Complete(INCOMPLETE, 1);
  }

  // ---- All contracts ----

  ghost predicate Emits(b: Books, end: int, contract: nat, r: AccrualRequired) {
    FreshOf(b, end, contract).Required? && r in FreshOf(b, end, contract).rows
  }

  /** Each list holds exactly what the contracts' outcomes say. */
  lemma {:induction false} NeedsMembers(b: Books, end: int, contracts: seq<nat>)
    ensures var n := NeedsOf(b, end, contracts);
            && (forall r :: r in n.requirements <==> exists c :: c in contracts && Emits(b, end, c, r))
            && (forall x :: x in n.candidates
                  <==> x.contract in contracts && FreshOf(b, end, x.contract) == Proposed(x))
            && (forall x :: x in n.blockers
                  <==> x.MissingBasis? && x.contract in contracts && FreshOf(b, end, x.contract).NoBasis?)
  {
    if contracts == [] {
    } else {
      hide FreshOf, Emits, NeedsOf;
      var front, last := contracts[..|contracts| - 1], contracts[|contracts| - 1];
      assert contracts == front + [last];
      NeedsMembers(b, end, front);
      ProposesItself(b, end, last);
      NeedsStep(b, end, contracts);
    }
  }

  lemma NeedsStep(b: Books, end: int, contracts: seq<nat>)
    requires contracts != []
    ensures var n, front, last := NeedsOf(b, end, contracts), contracts[..|contracts| - 1], contracts[|contracts| - 1];
            var before := NeedsOf(b, end, front);
            && (forall r :: r in n.requirements <==> r in before.requirements || Emits(b, end, last, r))
            && (forall x :: x in n.candidates <==> x in before.candidates || FreshOf(b, end, last) == Proposed(x))
            && (forall x :: x in n.blockers
                  <==> x in before.blockers || (x == MissingBasis(last) && FreshOf(b, end, last).NoBasis?))
  {
    hide FreshOf;
  }

  lemma ProposesItself(b: Books, end: int, contract: nat)
    ensures FreshOf(b, end, contract).Proposed? ==> FreshOf(b, end, contract).candidate.contract == contract
  {
  }

  /** A requirement belongs to the contract whose outcome emitted it, and its item to that contract. */
  lemma EmittedForItsContract(b: Books, end: int, contract: nat, r: AccrualRequired)
    requires WellKept(b) && Emits(b, end, contract, r)
    ensures r.contract == contract && r.item in b.facts.items && b.facts.items[r.item].contract == contract
    ensures OpenAccruals(b.facts, r.item) == []
  {
    hide RowsFor, Recognitions, OpenAccruals, Suppressed, ItemBases, ContractBases;
  }

  lemma SourceOf(b: Books, end: int, r: AccrualRequired)
    requires WellKept(b) && r in NeedsOf(b, end, b.contracts).requirements
    ensures FreshOf(b, end, r.contract).Required? && OpenAccruals(b.facts, r.item) == []
  {
    hide FreshOf, NeedsOf, Emits, OpenAccruals;
    NeedsMembers(b, end, b.contracts);
    var c :| c in b.contracts && Emits(b, end, c, r);
    EmittedForItsContract(b, end, c, r);
    EmitsIsRequired(b, end, c, r);
  }

  /** A requirement states the quantity and cost of the basis it names, recognised by the earliest cost fact due. */
  lemma RequirementTraced(b: Books, end: int, r: AccrualRequired)
    requires WellKept(b) && r in NeedsOf(b, end, b.contracts).requirements
    ensures exists x ::
              && x in b.bases && x.id == r.basis && x.contract == r.contract && x.perItem && x.item == Some(r.item)
              && x.quantity == r.quantity && x.cost == r.cost
    ensures RecognisedEarliest(b, end, r.contract, r.recognition)
  {
    hide FreshOf, NeedsOf, Emits, OpenAccruals, RecognisedEarliest;
    NeedsMembers(b, end, b.contracts);
    var c :| c in b.contracts && Emits(b, end, c, r);
    EmittedForItsContract(b, end, c, r);
    EmittedRow(b, end, c, r);
    EarliestRecognises(b, end, c);
  }

  lemma EmittedRow(b: Books, end: int, contract: nat, r: AccrualRequired)
    requires Emits(b, end, contract, r)
    ensures Recognitions(b, contract, end) != [] && r.recognition == Earliest(Recognitions(b, contract, end)).id
    ensures exists x :: x in b.bases && x.id == r.basis && x.contract == contract && x.perItem && x.item == Some(r.item)
                        && x.quantity == r.quantity && x.cost == r.cost
  {
    hide RowsFor, Recognitions, OpenAccruals, Suppressed, LastFor, Complete, ContractBases;
    RowOrigin(b, contract, Earliest(Recognitions(b, contract, end)), Complete(b, contract), r);
    var x := LastFor(ItemBases(b, contract), r.item);
    assert x.value in ItemBases(b, contract);
  }

  ghost predicate RecognisedEarliest(b: Books, end: int, contract: nat, id: nat) {
    exists c :: c in b.costs && c.id == id && c.contract == contract && c.date <= end
                && forall d :: d in b.costs && d.contract == contract ==> c.date <= d.date
  }

  lemma EarliestRecognises(b: Books, end: int, contract: nat)
    requires Recognitions(b, contract, end) != []
    ensures RecognisedEarliest(b, end, contract, Earliest(Recognitions(b, contract, end)).id)
  {
    var c := Earliest(Recognitions(b, contract, end));
    forall d | d in b.costs && d.contract == contract
      ensures c.date <= d.date
    {
      if d.date <= end {
        assert d in Recognitions(b, contract, end);
      }
    }
    assert c in b.costs;
  }

  /** A candidate states the cost of the contract's oldest basis, recognised by the earliest cost fact due. */
  lemma CandidateTraced(b: Books, end: int, x: Candidate)
    requires x in NeedsOf(b, end, b.contracts).candidates
    ensures exists y :: y in b.bases && y.id == x.basis && y.contract == x.contract && !y.perItem && y.cost == x.cost
                        && forall z :: z in b.bases && z.contract == x.contract && !z.perItem ==> y.created <= z.created
    ensures RecognisedEarliest(b, end, x.contract, x.recognition)
  {
    hide NeedsOf, Recognitions, RowsFor, Suppressed, HasOpenItem, Complete, ItemBases, RecognisedEarliest;
    NeedsMembers(b, end, b.contracts);
    EarliestRecognises(b, end, x.contract);
    var y := Oldest(ContractBases(b, x.contract));
    assert y in ContractBases(b, x.contract);
  }

  /** No contract appears in two of the three lists. */
  lemma OneKindPerContract(b: Books, end: int)
    requires WellKept(b)
    ensures var n := NeedsOf(b, end, b.contracts);
            && (forall r, x :: r in n.requirements && x in n.candidates ==> r.contract != x.contract)
            && (forall r :: r in n.requirements ==> MissingBasis(r.contract) !in n.blockers)
            && (forall x :: x in n.candidates ==> MissingBasis(x.contract) !in n.blockers)
  {
    hide FreshOf, NeedsOf, Emits;
    NeedsMembers(b, end, b.contracts);
    forall r | r in NeedsOf(b, end, b.contracts).requirements
      ensures FreshOf(b, end, r.contract).Required?
    {
      SourceOf(b, end, r);
    }
  }

  lemma EmitsIsRequired(b: Books, end: int, contract: nat, r: AccrualRequired)
    requires Emits(b, end, contract, r)
    ensures FreshOf(b, end, contract).Required?
  {
  }

  /** Required items have no open accrual, so none of them is an item the preview reverses. */
  lemma RequiredNeverReversed(b: Books, end: int, r: AccrualRequired, v: ReversalRequired)
    requires WellKept(b) && r in NeedsOf(b, end, b.contracts).requirements && v in Preview(b.facts, end).reversals
    ensures OpenAccruals(b.facts, r.item) == [] && r.item != v.item
  {
    hide FreshOf, NeedsOf, Emits, OpenAccruals, OpenItems, Preview, OutcomeOf;
    SourceOf(b, end, r);
    PreviewIs(b.facts, end);
    var id :| id in OpenItems(b.facts, b.facts.accruals) && YieldsReversal(b.facts, end, id, v);
    ReversalConserves(b.facts, end, id);
  }

  ghost predicate ItemsApart(rows: seq<AccrualRequired>) {
    forall i, j :: 0 <= i < j < |rows| ==> rows[i].item != rows[j].item
  }

  lemma {:induction false} RowsApart(b: Books, contract: nat, recognition: CostFact, items: seq<ContractItem>)
    requires forall i, j :: 0 <= i < j < |items| ==> items[i].id != items[j].id
    ensures ItemsApart(RowsFor(b, contract, recognition, items))
  {
    hide ItemBases, OpenAccruals;
    if items == [] {
    } else {
      RowsApart(b, contract, recognition, items[..|items| - 1]);
    }
  }

  lemma {:induction false} KeepApart(items: seq<ContractItem>, f: ContractItem -> bool)
    requires forall i, j :: 0 <= i < j < |items| ==> items[i].id != items[j].id
    ensures forall i, j :: 0 <= i < j < |Keep(items, f)| ==> Keep(items, f)[i].id != Keep(items, f)[j].id
  {
    if items == [] {
    } else {
      var front := items[..|items| - 1];
      KeepApart(front, f);
      forall x | x in Keep(front, f)
        ensures x.id != items[|items| - 1].id
      {
        var i :| 0 <= i < |front| && front[i] == x;
      }
    }
  }

  lemma ContractRowsApart(b: Books, end: int, contract: nat)
    requires WellKept(b) && FreshOf(b, end, contract).Required?
    ensures ItemsApart(FreshOf(b, end, contract).rows)
  {
    hide RowsFor, Recognitions, Suppressed, ItemBases, ContractBases, HasOpenItem, ItemsApart;
    KeepApart(b.listing, (i: ContractItem) => i.contract == contract && i.quantity.Some?);
    RowsApart(b, contract, Earliest(Recognitions(b, contract, end)), Complete(b, contract));
  }

  /** No item is required twice. */
  lemma {:induction false} RequiredOnce(b: Books, end: int, contracts: seq<nat>)
    requires WellKept(b) && Distinct(contracts)
    ensures ItemsApart(NeedsOf(b, end, contracts).requirements)
  {
    hide FreshOf, Emits;
    if contracts == [] {
    } else {
      var front, last := contracts[..|contracts| - 1], contracts[|contracts| - 1];
      assert last !in front;
      RequiredOnce(b, end, front);
      NeedsMembers(b, end, front);
      if FreshOf(b, end, last).Required? {
        ContractRowsApart(b, end, last);
        var rows := FreshOf(b, end, last).rows;
        forall r, s | r in NeedsOf(b, end, front).requirements && s in rows
          ensures r.item != s.item
        {
          var c :| c in front && Emits(b, end, c, r);
          RequiredByBoth(b, end, c, last, r, s);
        }
      }
    }
  }

  lemma RequiredByBoth(b: Books, end: int, c: nat, d: nat, r: AccrualRequired, s: AccrualRequired)
    requires WellKept(b) && c != d && Emits(b, end, c, r)
    requires FreshOf(b, end, d).Required? && s in FreshOf(b, end, d).rows
    ensures r.item != s.item
  {
    hide FreshOf;
    assert Emits(b, end, d, s);
    EmittedForItsContract(b, end, c, r);
    EmittedForItsContract(b, end, d, s);
  }

  lemma SuppressedLater(b: Books, end: int, later: int, contract: nat)
    requires Suppressed(b, contract, end) && end <= later
    ensures FreshOf(b, later, contract).Quiet?
  {
    hide Recognitions, RowsFor, ContractBases, ItemBases, HasOpenItem, Complete;
    var a :| a in b.facts.invoiceAllocations && a.contract == contract && a.confirmed
      && PurchasedBy(b.facts, a.invoice, end);
    assert PurchasedBy(b.facts, a.invoice, later);
  }

  /** Once a confirmed purchase invoice silences a contract, it stays silent at every later period end. */
  lemma SuppressedForEver(b: Books, end: int, later: int, contract: nat)
    requires WellKept(b) && Suppressed(b, contract, end) && end <= later
    ensures var n := NeedsOf(b, later, b.contracts);
            && (forall r :: r in n.requirements ==> r.contract != contract)
            && (forall x :: x in n.candidates ==> x.contract != contract)
            && MissingBasis(contract) !in n.blockers
  {
    hide NeedsOf, Emits, FreshOf, Suppressed;
    SuppressedLater(b, end, later, contract);
    NeedsMembers(b, later, b.contracts);
    forall r | r in NeedsOf(b, later, b.contracts).requirements
      ensures r.contract != contract
    {
      SourceOf(b, later, r);
    }
  }
}
