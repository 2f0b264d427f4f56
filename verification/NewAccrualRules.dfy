/**
 The new accruals a period still needs: per contract either accruals for its items, a candidate for
 the contract as a whole, a missing basis, or nothing.
 */
module NewAccrualRules {
  import opened Options
  import opened Sequences
  import opened PeriodCloseRules

  datatype CostFact = CostFact(id: nat, contract: nat, date: int)
  datatype BasisFact = BasisFact(
    id: nat, contract: nat, perItem: bool, item: Option<nat>, quantity: Option<real>, cost: real, created: int)

  /** The facts of a close, with its contracts and contract items in the order they are visited. */
  datatype Books = Books(
    facts: Facts, contracts: seq<nat>, listing: seq<ContractItem>, costs: seq<CostFact>, bases: seq<BasisFact>)

  datatype AccrualRequired = AccrualRequired(
    contract: nat, item: nat, quantity: Option<real>, cost: real, recognition: nat, basis: nat)

  datatype Candidate = Candidate(contract: nat, cost: real, recognition: nat, basis: nat)

  datatype Fresh = Quiet | Required(rows: seq<AccrualRequired>) | Proposed(candidate: Candidate) | NoBasis

  ghost predicate WellKept(b: Books) {
    && Distinct(b.contracts)
    && (forall i, j :: 0 <= i < j < |b.listing| ==> b.listing[i].id != b.listing[j].id)
    && (forall i :: i in b.listing ==> i.id in b.facts.items && b.facts.items[i.id] == i)
  }

  function Recognitions(b: Books, contract: nat, end: int): seq<CostFact> {
    Keep(b.costs, (c: CostFact) => c.contract == contract && c.date <= end)
  }

  /** A confirmed purchase invoice dated by the period's end. */
  predicate Suppressed(b: Books, contract: nat, end: int) {
    exists a :: a in b.facts.invoiceAllocations && a.contract == contract && a.confirmed
      && PurchasedBy(b.facts, a.invoice, end)
  }

  function Complete(b: Books, contract: nat): seq<ContractItem> {
    Keep(b.listing, (i: ContractItem) => i.contract == contract && i.quantity.Some?)
  }

  predicate HasOpenItem(b: Books, contract: nat) {
    exists i :: i in b.listing && i.contract == contract && OpenAccruals(b.facts, i.id) != []
  }

  function ItemBases(b: Books, contract: nat): seq<BasisFact> {
    Keep(b.bases, (x: BasisFact) => x.contract == contract && x.perItem)
  }

  function ContractBases(b: Books, contract: nat): seq<BasisFact> {
    Keep(b.bases, (x: BasisFact) => x.contract == contract && !x.perItem)
  }

  /** The basis recorded for an item; of several, the one listed last. */
  function LastFor(bases: seq<BasisFact>, item: nat): (r: Option<BasisFact>)
    ensures r.Some? ==> r.value in bases && r.value.item == Some(item)
    ensures r.None? ==> forall x :: x in bases ==> x.item != Some(item)
  {
    if bases == [] then None
    else if bases[|bases| - 1].item == Some(item) then Some(bases[|bases| - 1])
    else LastFor(bases[..|bases| - 1], item)
  }

  /** Of the earliest facts, the one listed first. */
  function Earliest(facts: seq<CostFact>): (r: CostFact)
    requires facts != []
    ensures r in facts && forall x :: x in facts ==> r.date <= x.date
  {
    if |facts| == 1 then facts[0]
    else
      var best, last := Earliest(facts[..|facts| - 1]), facts[|facts| - 1];
      assert facts == facts[..|facts| - 1] + [last];
      if last.date < best.date then last else best
  }

  function Oldest(bases: seq<BasisFact>): (r: BasisFact)
    requires bases != []
    ensures r in bases && forall x :: x in bases ==> r.created <= x.created
  {
    if |bases| == 1 then bases[0]
    else
      var best, last := Oldest(bases[..|bases| - 1]), bases[|bases| - 1];
      assert bases == bases[..|bases| - 1] + [last];
      if last.created < best.created then last else best
  }

  function Row(b: Books, contract: nat, recognition: CostFact, basis: BasisFact, item: ContractItem): AccrualRequired {
    AccrualRequired(contract, item.id, basis.quantity, basis.cost, recognition.id, basis.id)
  }

  /** The requirements for the given complete items: those without an open accrual and with a basis. */
  function RowsFor(b: Books, contract: nat, recognition: CostFact, items: seq<ContractItem>)
    : (rows: seq<AccrualRequired>)
    ensures forall r :: r in rows ==> r.contract == contract && exists i :: i in items && i.id == r.item
    ensures forall r :: r in rows ==> OpenAccruals(b.facts, r.item) == []
    ensures forall i :: i in items && OpenAccruals(b.facts, i.id) == [] ==>
      LastFor(ItemBases(b, contract), i.id).Some? ==>
      Row(b, contract, recognition, LastFor(ItemBases(b, contract), i.id).value, i) in rows
  {
    if items == [] then []
    else
      var front, last := items[..|items| - 1], items[|items| - 1];
      assert items == front + [last];
      var basis := LastFor(ItemBases(b, contract), last.id);
      if OpenAccruals(b.facts, last.id) != [] || basis.None? then RowsFor(b, contract, recognition, front)
      else RowsFor(b, contract, recognition, front) + [Row(b, contract, recognition, basis.value, last)]
  }

  function FreshOf(b: Books, end: int, contract: nat): Fresh {
    var recognitions := Recognitions(b, contract, end);
    if recognitions == [] || Suppressed(b, contract, end) then Quiet
    else
      var rows := RowsFor(b, contract, Earliest(recognitions), Complete(b, contract));
      var perContract := ContractBases(b, contract);
      var based := ItemBases(b, contract) != [] || perContract != [];
      if rows != [] then Required(rows)
      else if !based then (if HasOpenItem(b, contract) then Quiet else NoBasis)
      else if Complete(b, contract) == [] && perContract != [] then
        var basis := Oldest(perContract);
        Proposed(Candidate(contract, basis.cost, Earliest(recognitions).id, basis.id))
      else if Complete(b, contract) != [] then NoBasis
      else Quiet
  }

  datatype Needs = Needs(requirements: seq<AccrualRequired>, candidates: seq<Candidate>, blockers: seq<Blocker>)

  function Add(n: Needs, contract: nat, o: Fresh): Needs {
    match o
    case Quiet => n
    case Required(rows) => n.(requirements := n.requirements + rows)
    case Proposed(c) => n.(candidates := n.candidates + [c])
    case NoBasis => n.(blockers := n.blockers + [MissingBasis(contract)])
  }

  function NeedsOf(b: Books, end: int, contracts: seq<nat>): Needs {
    if contracts == [] then Needs([], [], [])
    else Add(NeedsOf(b, end, contracts[..|contracts| - 1]), contracts[|contracts| - 1],
             FreshOf(b, end, contracts[|contracts| - 1]))
  }
}
