/** What the terms of the preview mean of the stored rows: open, qualifying, unclaimed, invoiced, recognised. */
module PeriodCloseMeanings {
  import opened Sequences
  import opened PeriodCloseRules
  import opened NewAccrualRules
  import opened PeriodCloseTheorems

  /** The reversals of an accrual, summed. */
  function ReversedSoFar(reversals: seq<Reversal>, accrual: nat, weight: Reversal -> real): real {
    Total(Keep(reversals, (r: Reversal) => r.accrual == accrual), weight)
  }

  /** Open is an accrual of which both some quantity and some cost remain. */
  lemma OpenMeans(f: Facts, item: nat, a: Accrual)
    ensures a in OpenAccruals(f, item) <==>
              && a in f.accruals && a.item == item
              && ReversedSoFar(f.reversals, a.id, (r: Reversal) => r.quantity) < a.quantity
              && ReversedSoFar(f.reversals, a.id, (r: Reversal) => r.cost) < a.cost
  {
    var own := ReversalsOf(f.reversals, a.id);
    TotalAgrees(own, Quantity, (r: Reversal) => r.quantity);
    TotalAgrees(own, Cost, (r: Reversal) => r.cost);
    assert own == Keep(f.reversals, (r: Reversal) => r.accrual == a.id);
  }

  /** Its invoice is a purchase dated within the period. */
  ghost predicate PurchaseBy(f: Facts, invoice: nat, end: int) {
    && invoice in f.invoices && f.invoices[invoice].purchase
    && match f.invoices[invoice].date case None => false case Some(date) => date <= end
  }

  /** An allocation qualifies when it is of the item and its line's invoice is a purchase dated within the period. */
  lemma QualifyingMeans(f: Facts, end: int, item: nat, a: ItemAllocation)
    ensures a in Qualifying(f, end, item) <==>
              && a in f.allocations && a.item == item
              && a.invoiceItem in f.invoiceItems && PurchaseBy(f, f.invoiceItems[a.invoiceItem], end)
  {
  }

  /** Unclaimed is what no reversal of any accrual has taken. */
  lemma UnclaimedMeans(reversals: seq<Reversal>, a: ItemAllocation)
    ensures Unclaimed(reversals, a)
         == a.quantity - Total(Keep(reversals, (r: Reversal) => r.allocation == a.id), (r: Reversal) => r.quantity)
  {
    TotalAgrees(Keep(reversals, (r: Reversal) => r.allocation == a.id), Quantity, (r: Reversal) => r.quantity);
  }

  /** An item match is asked for when any allocation, of whatever confirmation, ties such an invoice to the contract. */
  lemma ContractInvoicedMeans(f: Facts, contract: nat, end: int)
    ensures ContractInvoiced(f, contract, end) <==>
              exists a :: a in f.invoiceAllocations && a.contract == contract && PurchaseBy(f, a.invoice, end)
  {
    assert forall invoice :: PurchaseBy(f, invoice, end) <==> PurchasedBy(f, invoice, end);
  }

  /** A new accrual is suppressed only by a confirmed one. */
  lemma SuppressedMeans(b: Books, contract: nat, end: int)
    ensures Suppressed(b, contract, end) <==>
              exists a :: a in b.facts.invoiceAllocations && a.contract == contract && a.confirmed
                          && PurchaseBy(b.facts, a.invoice, end)
  {
    assert forall invoice :: PurchaseBy(b.facts, invoice, end) <==> PurchasedBy(b.facts, invoice, end);
  }

  /** A contract is recognised by its cost facts dated within the period, and of its items the complete ones count. */
  lemma RecognitionMeans(b: Books, contract: nat, end: int, x: CostFact, i: ContractItem)
    ensures x in Recognitions(b, contract, end) <==> x in b.costs && x.contract == contract && x.date <= end
    ensures i in Complete(b, contract) <==> i in b.listing && i.contract == contract && i.quantity.Some?
  {
  }

  /** A share is to the whole as the part to the quantity: of the accrual's cost, and of what the invoice charged. */
  lemma SharesMean(a: Accrual, source: ItemAllocation, part: real)
    ensures a.quantity != 0.0 ==> Share(a, part) * a.quantity == a.cost * part
    ensures source.quantity != 0.0 ==> NetShare(source, part) * source.quantity == source.net * part
  {
    if a.quantity != 0.0 {
      Proportion(a.cost, a.quantity, part);
    }
    if source.quantity != 0.0 {
      Proportion(source.net, source.quantity, part);
    }
  }

  lemma Proportion(total: real, whole: real, part: real)
    requires whole != 0.0
    ensures total / whole * part * whole == total * part
  {
    var unit := total / whole;
    assert unit * whole == total;
    assert unit * part * whole == unit * whole * part;
  }

  /** What a previewed reversal takes, of the only open accrual and from the only allocation with anything unclaimed: as
      much as both have.  All that is left of the cost if it clears the accrual. */
  lemma ReversalTakes(f: Facts, end: int, item: nat)
    requires OpenAccruals(f, item) != [] && OutcomeOf(f, end, item).Reverses?
    ensures var a, r := OpenAccruals(f, item)[0], OutcomeOf(f, end, item).reversal;
            var left := a.quantity - ReversedSoFar(f.reversals, a.id, (r: Reversal) => r.quantity);
            && OpenAccruals(f, item) == [a] && r.accrual == a.id
            && (exists s ::
                  && WithUnclaimed(f.reversals, Qualifying(f, end, item)) == [s] && r.allocation == s.id
                  && r.quantity == (if Unclaimed(f.reversals, s) < left then Unclaimed(f.reversals, s) else left))
            && (r.quantity == left ==> r.cost == a.cost - ReversedSoFar(f.reversals, a.id, (r: Reversal) => r.cost))
  {
    hide Qualifying, WithUnclaimed, Invoiced, Unclaimed, OpenAccruals, Decide, OutcomeOf, Share, NetShare;
    ReversalOrigin(f, end, item);
    var a := OpenAccruals(f, item)[0];
    var unclaimed := WithUnclaimed(f.reversals, Qualifying(f, end, item));
    assert unclaimed == [unclaimed[0]];
    var own := ReversalsOf(f.reversals, a.id);
    TotalAgrees(own, Quantity, (r: Reversal) => r.quantity);
    TotalAgrees(own, Cost, (r: Reversal) => r.cost);
    assert own == Keep(f.reversals, (r: Reversal) => r.accrual == a.id);
  }
}
