/**
 The period-close preview: which prior accruals an invoiced quantity reverses and at what cost,
 and which new accruals a period still needs.  Quantities and costs are exact rationals.
 */
module PeriodCloseRules {
  import opened Options
  import opened Sequences
  import opened Rounding

  // ---- The facts a preview reads ----

  datatype ContractItem = ContractItem(id: nat, contract: nat, key: string, quantity: Option<real>)
  datatype Accrual = Accrual(id: nat, item: nat, quantity: real, cost: real, fact: nat)
  datatype Reversal = Reversal(accrual: nat, allocation: nat, quantity: real, cost: real)
  datatype ItemAllocation = ItemAllocation(id: nat, invoiceItem: nat, item: nat, quantity: real, net: real)
  datatype Invoice = Invoice(purchase: bool, date: Option<int>)
  datatype InvoiceAllocation = InvoiceAllocation(invoice: nat, contract: nat, confirmed: bool)

  datatype Facts = Facts(
    items: map<nat, ContractItem>, accruals: seq<Accrual>, reversals: seq<Reversal>, allocations: seq<ItemAllocation>,
    invoiceItems: map<nat, nat>, invoices: map<nat, Invoice>, invoiceAllocations: seq<InvoiceAllocation>)

  predicate PurchasedBy(f: Facts, invoice: nat, end: int) {
    invoice in f.invoices && f.invoices[invoice].purchase && f.invoices[invoice].date.Some?
      && f.invoices[invoice].date.value <= end
  }

  /** The allocation's invoice exists and is a purchase dated by the period's end. */
  predicate Invoiced(f: Facts, a: ItemAllocation, end: int) {
    a.invoiceItem in f.invoiceItems && PurchasedBy(f, f.invoiceItems[a.invoiceItem], end)
  }

  predicate ContractInvoiced(f: Facts, contract: nat, end: int) {
    exists a :: a in f.invoiceAllocations && a.contract == contract && PurchasedBy(f, a.invoice, end)
  }

  // ---- Balances ----

  function Quantity(r: Reversal): real { r.quantity }

  function Cost(r: Reversal): real { r.cost }

  function ReversalsOf(reversals: seq<Reversal>, accrual: nat): seq<Reversal> {
    Keep(reversals, (r: Reversal) => r.accrual == accrual)
  }

  datatype Balance = Balance(quantity: real, cost: real, reversedQuantity: real, reversedCost: real)

  function BalanceOf(a: Accrual, own: seq<Reversal>): Balance {
    var q, c := Total(own, Quantity), Total(own, Cost);
    Balance(a.quantity - q, a.cost - c, q, c)
  }

  predicate IsOpen(a: Accrual, reversals: seq<Reversal>) {
    var b := BalanceOf(a, ReversalsOf(reversals, a.id));
    b.quantity > 0.0 && b.cost > 0.0
  }

  function OpenAccruals(f: Facts, item: nat): seq<Accrual> {
    Keep(f.accruals, (a: Accrual) => a.item == item && IsOpen(a, f.reversals))
  }

  function Qualifying(f: Facts, end: int, item: nat): seq<ItemAllocation> {
    Keep(f.allocations, (a: ItemAllocation) => a.item == item && Invoiced(f, a, end))
  }

  /** Every recorded reversal of an allocation consumes it, whichever accrual it reversed. */
  function Consumed(reversals: seq<Reversal>, allocation: nat): real {
    Total(Keep(reversals, (r: Reversal) => r.allocation == allocation), Quantity)
  }

  function Unclaimed(reversals: seq<Reversal>, a: ItemAllocation): real { a.quantity - Consumed(reversals, a.id) }

  function Available(reversals: seq<Reversal>, qualifying: seq<ItemAllocation>): real {
    Total(qualifying, (a: ItemAllocation) => Unclaimed(reversals, a))
  }

  function WithUnclaimed(reversals: seq<Reversal>, qualifying: seq<ItemAllocation>): seq<ItemAllocation> {
    Keep(qualifying, (a: ItemAllocation) => Unclaimed(reversals, a) > 0.0)
  }

  // ---- One item's outcome ----

  datatype Status = Active | PartiallyReversed | Reversed

  function ProjectedStatus(reversed: real, remaining: real): Status {
    if remaining <= 0.0 then Reversed else if reversed > 0.0 then PartiallyReversed else Active
  }

  datatype ReversalRequired = ReversalRequired(
    accrual: nat, contract: nat, item: nat, quantity: real, cost: real, remainingQuantity: real, remainingCost: real,
    status: Status, fact: nat, allocation: nat)

  datatype Difference = Difference(
    contract: nat, item: nat, actual: real, reversed: real, difference: real, fact: nat, allocation: nat)

  datatype Blocker =
    | ItemMatchRequired(contract: nat, item: nat, accrual: nat)
    | MultipleAccruals(contract: nat, item: nat, accruals: seq<nat>)
    | MultipleAllocations(contract: nat, item: nat, accrual: nat)
    | MissingBasis(contract: nat)

  datatype Outcome =
    | Nothing
    | Blocked(blockers: seq<Blocker>)
    | Reverses(reversal: ReversalRequired, difference: Difference)
    | DivisionByZero

  function Min(x: real, y: real): real { if y < x then y else x }

  /** The reversed quantity, and its cost: what is left on a full clear, otherwise pro rata in whole cents. */
  function ReversedQuantity(b: Balance, unclaimed: real): real { Min(unclaimed, b.quantity) }

  function Share(a: Accrual, quantity: real): real
    requires a.quantity != 0.0
  {
    a.cost / a.quantity * quantity
  }

  /** What the invoice charged for a part of the allocated quantity. */
  function NetShare(source: ItemAllocation, quantity: real): real
    requires source.quantity != 0.0
  {
    source.net / source.quantity * quantity
  }

  function ReversedCost(a: Accrual, b: Balance, quantity: real): real
    requires quantity != b.quantity ==> a.quantity != 0.0
  {
    if quantity == b.quantity then b.cost else Quantize(Share(a, quantity))
  }

  function Reverse(a: Accrual, b: Balance, contract: nat, source: ItemAllocation, unclaimed: real): Outcome {
    var quantity := ReversedQuantity(b, unclaimed);
    if (quantity != b.quantity && a.quantity == 0.0) || source.quantity == 0.0 then DivisionByZero
    else
      var cost := ReversedCost(a, b, quantity);
      var actual := Quantize(NetShare(source, quantity));
      Reverses(
        ReversalRequired(a.id, contract, a.item, quantity, cost, b.quantity - quantity, b.cost - cost,
                         ProjectedStatus(b.reversedQuantity + quantity, b.quantity - quantity), a.fact, source.id),
        Difference(contract, a.item, actual, cost, Quantize(actual - cost), a.fact, source.id))
  }

  function OpenIds(open: seq<Accrual>): seq<nat> {
    Map(open, (a: Accrual) => a.id)
  }

  function MatchRequired(contract: nat, item: nat, open: seq<Accrual>): seq<Blocker> {
    Map(open, (a: Accrual) => ItemMatchRequired(contract, item, a.id))
  }

  /** What the preview says about one item with the given open accruals and qualifying allocations. */
  function Decide(
      reversals: seq<Reversal>, item: ContractItem, open: seq<Accrual>, qualifying: seq<ItemAllocation>,
      contractInvoiced: bool): Outcome
    requires open != []
  {
    if qualifying == [] then (if contractInvoiced then Blocked(MatchRequired(item.contract, item.id, open))
                              else Nothing)
    else if Available(reversals, qualifying) <= 0.0 then Nothing
    else if |open| > 1 then Blocked([MultipleAccruals(item.contract, item.id, OpenIds(open))])
    else
      var a := open[0];
      var b := BalanceOf(a, ReversalsOf(reversals, a.id));
      var unclaimed := WithUnclaimed(reversals, qualifying);
      if b.quantity <= 0.0 || b.cost <= 0.0 then Nothing
      else if |unclaimed| != 1 then Blocked([MultipleAllocations(item.contract, item.id, a.id)])
      else Reverse(a, b, item.contract, unclaimed[0], Unclaimed(reversals, unclaimed[0]))
  }

  function OutcomeOf(f: Facts, end: int, item: nat): Outcome
    requires OpenAccruals(f, item) != []
  {
    if item !in f.items then Nothing
    else
      Decide(f.reversals, f.items[item], OpenAccruals(f, item), Qualifying(f, end, item),
             ContractInvoiced(f, f.items[item].contract, end))
  }

  // ---- The items with open accruals, each once, in the order they are first met ----

  function OpenItems(f: Facts, accruals: seq<Accrual>): (ids: seq<nat>)
    ensures forall id :: id in ids <==> exists a :: a in accruals && IsOpen(a, f.reversals) && a.item == id
    ensures Distinct(ids)
  {
    if accruals == [] then []
    else
      var front, last := OpenItems(f, accruals[..|accruals| - 1]), accruals[|accruals| - 1];
      assert accruals == accruals[..|accruals| - 1] + [last];
      if IsOpen(last, f.reversals) && last.item !in front then front + [last.item] else front
  }

  ghost predicate HasOpen(f: Facts, item: nat) {
    exists a :: a in f.accruals && IsOpen(a, f.reversals) && a.item == item
  }

  lemma HasOpenAccruals(f: Facts, item: nat)
    ensures item in OpenItems(f, f.accruals) <==> HasOpen(f, item)
    ensures HasOpen(f, item) <==> OpenAccruals(f, item) != []
  {
    if HasOpen(f, item) {
      var a :| a in f.accruals && IsOpen(a, f.reversals) && a.item == item;
      assert a in OpenAccruals(f, item);
    }
    if OpenAccruals(f, item) != [] {
      assert OpenAccruals(f, item)[0] in OpenAccruals(f, item);
    }
  }

  // ---- The reversal half of the preview ----

  datatype Reversing = Reversing(reversals: seq<ReversalRequired>, differences: seq<Difference>, blockers: seq<Blocker>)

  function Emit(v: Reversing, o: Outcome): Reversing {
    match o
    case Nothing => v
    case DivisionByZero => v
    case Blocked(b) => v.(blockers := v.blockers + b)
    case Reverses(r, d) => v.(reversals := v.reversals + [r], differences := v.differences + [d])
  }

  /** The preview over a list of items with open accruals. */
  function PreviewOf(f: Facts, end: int, items: seq<nat>): Reversing
    requires forall id :: id in items ==> OpenAccruals(f, id) != []
  {
    if items == [] then Reversing([], [], [])
    else
      assert items[|items| - 1] in items;
      Emit(PreviewOf(f, end, items[..|items| - 1]), OutcomeOf(f, end, items[|items| - 1]))
  }

  lemma AllOpen(f: Facts)
    ensures forall id :: id in OpenItems(f, f.accruals) ==> OpenAccruals(f, id) != []
  {
    forall id | id in OpenItems(f, f.accruals)
      ensures OpenAccruals(f, id) != []
    {
      HasOpenAccruals(f, id);
    }
  }

  function Preview(f: Facts, end: int): Reversing {
    AllOpen(f);
    PreviewOf(f, end, OpenItems(f, f.accruals))
  }

  /** The preview fails as a whole when one item's arithmetic divides by zero. */
  predicate Divides(f: Facts, end: int, items: seq<nat>)
    requires forall id :: id in items ==> OpenAccruals(f, id) != []
  {
    exists id :: id in items && OutcomeOf(f, end, id).DivisionByZero?
  }

  predicate PreviewDivides(f: Facts, end: int) {
    AllOpen(f);
    Divides(f, end, OpenItems(f, f.accruals))
  }
}
