/**
 What the reversal half of the preview guarantees: the amounts of a reversal and of a chain of them, that
 nothing is guessed between allocations, and that an allocation's quantity is never spent twice.
 */
module PeriodCloseGuarantees {
  import opened Sequences
  import opened Rounding
  import opened PeriodCloseRules
  import opened PeriodCloseTheorems

  // ---- The amounts of one reversal ----

  /** What has been consumed of the funding allocation plus the reversal stays within its quantity, and either uses it
      up or clears the accrual. */
  lemma ReversalFitsAllocation(f: Facts, end: int, item: nat)
    requires OpenAccruals(f, item) != [] && OutcomeOf(f, end, item).Reverses?
    ensures var r := OutcomeOf(f, end, item).reversal;
            exists a :: a in f.allocations && a.id == r.allocation && a.item == item && Invoiced(f, a, end)
                        && Consumed(f.reversals, a.id) + r.quantity <= a.quantity
                        && (Consumed(f.reversals, a.id) + r.quantity == a.quantity || r.remainingQuantity == 0.0)
  {
    hide Qualifying, WithUnclaimed, Invoiced, Consumed, BalanceOf, ReversalsOf, OpenAccruals, Decide, OutcomeOf,
      Quantize;
    ReversalOrigin(f, end, item);
    var source := WithUnclaimed(f.reversals, Qualifying(f, end, item))[0];
    assert Consumed(f.reversals, source.id) + OutcomeOf(f, end, item).reversal.quantity <= source.quantity;
  }

  /** A partial reversal costs its pro-rata share to within half a cent. */
  lemma PartialCostNearShare(f: Facts, end: int, item: nat)
    requires OpenAccruals(f, item) != [] && OutcomeOf(f, end, item).Reverses?
    requires OutcomeOf(f, end, item).reversal.remainingQuantity > 0.0
    ensures var a, r := OpenAccruals(f, item)[0], OutcomeOf(f, end, item).reversal;
            && a.quantity != 0.0 && WholeCents(r.cost) && Abs(r.cost - Share(a, r.quantity)) <= 0.005
  {
    hide *;
    ReversalOrigin(f, end, item);
    var a, r := OpenAccruals(f, item)[0], OutcomeOf(f, end, item).reversal;
    PartialCost(a, BalanceOf(a, ReversalsOf(f.reversals, a.id)), r.quantity);
  }

  /** The cost rule away from the full clear. */
  lemma PartialCost(a: Accrual, b: Balance, quantity: real)
    requires quantity != b.quantity && a.quantity != 0.0
    ensures var cost := ReversedCost(a, b, quantity);
            && cost == Quantize(Share(a, quantity)) && WholeCents(cost) && Abs(cost - Share(a, quantity)) <= 0.005
  {
    hide Quantize, WholeCents, Share;
    QuantizeNearest(Share(a, quantity));
  }

  /** On an accrual with no reversals yet and an estimate in whole cents, the cost lies in [0, estimate]. */
  lemma FreshCostWithinEstimate(f: Facts, end: int, item: nat)
    requires OpenAccruals(f, item) != [] && OutcomeOf(f, end, item).Reverses?
    requires var a := OpenAccruals(f, item)[0]; ReversalsOf(f.reversals, a.id) == [] && WholeCents(a.cost)
    ensures 0.0 <= OutcomeOf(f, end, item).reversal.cost <= OpenAccruals(f, item)[0].cost
  {
    hide Qualifying, WithUnclaimed, Invoiced, Unclaimed, ReversalsOf, OpenAccruals, Decide, OutcomeOf, Quantize, Share,
      Reverse;
    ReversalOrigin(f, end, item);
    ReversalConserves(f, end, item);
    var a, r := OpenAccruals(f, item)[0], OutcomeOf(f, end, item).reversal;
    FreshBalance(a);
    FreshCost(a, BalanceOf(a, []), r.quantity);
  }

  /** The actual cost is the invoice's share to the cent, and the difference is actual less reversed to the cent. */
  lemma DifferenceNearShare(f: Facts, end: int, item: nat)
    requires OpenAccruals(f, item) != [] && OutcomeOf(f, end, item).Reverses?
    ensures var o := OutcomeOf(f, end, item);
            var source := WithUnclaimed(f.reversals, Qualifying(f, end, item))[0];
            && o.difference.allocation == o.reversal.allocation == source.id && o.difference.reversed == o.reversal.cost
            && source.quantity != 0.0
            && WholeCents(o.difference.actual)
                 && Abs(o.difference.actual - NetShare(source, o.reversal.quantity)) <= 0.005
            && WholeCents(o.difference.difference)
            && Abs(o.difference.difference - (o.difference.actual - o.reversal.cost)) <= 0.005
            && (WholeCents(o.reversal.cost) ==> o.difference.difference == o.difference.actual - o.reversal.cost)
  {
    hide Qualifying, WithUnclaimed, Invoiced, Unclaimed, ReversalsOf, OpenAccruals, Decide, OutcomeOf, Quantize, Share,
      NetShare, WholeCents;
    ReversalOrigin(f, end, item);
    var o := OutcomeOf(f, end, item);
    QuantizeNearest(NetShare(WithUnclaimed(f.reversals, Qualifying(f, end, item))[0], o.reversal.quantity));
    QuantizeNearest(o.difference.actual - o.reversal.cost);
    if WholeCents(o.reversal.cost) {
      CentsSubtract(o.difference.actual, o.reversal.cost);
      WholeCentsStay(o.difference.actual - o.reversal.cost);
    }
  }

  lemma CentsSubtract(x: real, y: real)
    requires WholeCents(x) && WholeCents(y)
    ensures WholeCents(x - y)
  {
    var m, n := (x * 100.0).Floor, (y * 100.0).Floor;
    assert (x - y) * 100.0 == (m - n) as real;
  }

  lemma FreshBalance(a: Accrual)
    ensures BalanceOf(a, []) == Balance(a.quantity, a.cost, 0.0, 0.0)
  {
  }

  lemma FreshCost(a: Accrual, b: Balance, quantity: real)
    requires b.quantity == a.quantity && b.cost == a.cost && a.cost >= 0.0 && WholeCents(a.cost)
      && 0.0 < quantity <= a.quantity
    ensures 0.0 <= ReversedCost(a, b, quantity) <= a.cost
  {
    hide Quantize, WholeCents, Share;
    if quantity != b.quantity {
      ShareWithinWhole(a, quantity);
      QuantizeMonotone(0.0, Share(a, quantity));
      QuantizeMonotone(Share(a, quantity), a.cost);
      WholeCentsStay(a.cost);
      ZeroCents();
    }
  }

  lemma ZeroCents()
    ensures Quantize(0.0) == 0.0
  {
    assert (0.5 as real).Floor == 0;
  }

  lemma ShareWithinWhole(a: Accrual, part: real)
    requires a.cost >= 0.0 && 0.0 <= part <= a.quantity && a.quantity > 0.0
    ensures 0.0 <= Share(a, part) <= a.cost
  {
    var unit := a.cost / a.quantity;
    Product(unit, part);
    Product(unit, a.quantity - part);
    assert unit * part + unit * (a.quantity - part) == unit * a.quantity;
  }

  lemma Product(x: real, y: real)
    requires x >= 0.0 && y >= 0.0
    ensures x * y >= 0.0
  {
  }

  lemma ShareAdds(a: Accrual, x: real, y: real)
    requires a.quantity != 0.0
    ensures Share(a, x + y) == Share(a, x) + Share(a, y)
  {
    var unit := a.cost / a.quantity;
    assert unit * (x + y) == unit * x + unit * y;
  }

  // ---- A chain of reversals recorded as previewed ----

  /** recorded[i] is what the preview computes for a, given the earlier ones and some unclaimed quantity. */
  ghost predicate AsPreviewed(a: Accrual, recorded: seq<Reversal>, i: nat)
    requires i < |recorded|
  {
    var b := BalanceOf(a, recorded[..i]);
    exists unclaimed :: unclaimed > 0.0 && b.quantity > 0.0 && b.cost > 0.0
      && (recorded[i].quantity != b.quantity ==> a.quantity != 0.0)
      && recorded[i].quantity == ReversedQuantity(b, unclaimed)
      && recorded[i].cost == ReversedCost(a, b, recorded[i].quantity)
  }

  /** A reversal the engine previews, once recorded, extends such a chain. */
  lemma PreviewExtendsChain(f: Facts, end: int, item: nat, period: Reversal)
    requires OpenAccruals(f, item) != [] && OutcomeOf(f, end, item).Reverses?
    requires var r := OutcomeOf(f, end, item).reversal;
             period == Reversal(r.accrual, r.allocation, r.quantity, r.cost)
    ensures var a := OpenAccruals(f, item)[0]; var own := ReversalsOf(f.reversals, a.id);
            AsPreviewed(a, own + [period], |own|)
  {
    hide Qualifying, WithUnclaimed, Invoiced, Unclaimed, ReversalsOf, OpenAccruals, Decide, OutcomeOf, Quantize;
    ReversalOrigin(f, end, item);
    var a := OpenAccruals(f, item)[0];
    var own := ReversalsOf(f.reversals, a.id);
    assert (own + [period])[..|own|] == own;
    var unclaimed := Unclaimed(f.reversals, WithUnclaimed(f.reversals, Qualifying(f, end, item))[0]);
    assert unclaimed > 0.0;
  }

  ghost predicate Partial(a: Accrual, recorded: seq<Reversal>, i: nat)
    requires i < |recorded|
  {
    AsPreviewed(a, recorded, i) && recorded[i].quantity < BalanceOf(a, recorded[..i]).quantity
  }

  lemma PartialStep(a: Accrual, recorded: seq<Reversal>, n: nat)
    requires n < |recorded| && a.quantity != 0.0 && Partial(a, recorded, n)
    ensures Abs(recorded[n].cost - Share(a, recorded[n].quantity)) <= 0.005
    ensures Total(recorded[..n], Quantity) + recorded[n].quantity < a.quantity
  {
    hide Quantize, Share;
    PartialCost(a, BalanceOf(a, recorded[..n]), recorded[n].quantity);
  }

  /** k partial reversals together drift at most k half-cents from their pro-rata share. */
  lemma {:induction false} DriftBounded(a: Accrual, recorded: seq<Reversal>)
    requires a.quantity != 0.0 && forall i :: 0 <= i < |recorded| ==> Partial(a, recorded, i)
    ensures Abs(Total(recorded, Cost) - Share(a, Total(recorded, Quantity))) <= |recorded| as real * 0.005
    ensures recorded != [] ==> Total(recorded, Quantity) < a.quantity
  {
    hide Partial, Quantize, Share;
    if recorded == [] {
      ShareAdds(a, 0.0, 0.0);
    } else {
      var n := |recorded| - 1;
      var front, last := recorded[..n], recorded[n];
      forall i | 0 <= i < n
        ensures Partial(a, front, i)
      {
        PartialOfPrefix(a, recorded, n, i);
      }
      DriftBounded(a, front);
      PartialStep(a, recorded, n);
      ShareAdds(a, Total(front, Quantity), last.quantity);
      assert |recorded| as real == n as real + 1.0;
    }
  }

  lemma PartialOfPrefix(a: Accrual, recorded: seq<Reversal>, n: nat, i: nat)
    requires i < n <= |recorded| && Partial(a, recorded, i)
    ensures Partial(a, recorded[..n], i)
  {
    hide ReversedCost, ReversedQuantity, BalanceOf;
    assert recorded[..n][..i] == recorded[..i];
  }

  /** After any chain, a reversal that clears the quantity makes the total exactly the estimate. */
  lemma FinalClearIsExact(a: Accrual, recorded: seq<Reversal>)
    requires recorded != [] && AsPreviewed(a, recorded, |recorded| - 1)
    requires var n := |recorded| - 1; recorded[n].quantity == BalanceOf(a, recorded[..n]).quantity
    ensures Total(recorded, Quantity) == a.quantity && Total(recorded, Cost) == a.cost
  {
  }

  /** With no negative reversal on record, the preview never divides by zero. */
  lemma NoZeroDivision(f: Facts, end: int, item: nat)
    requires OpenAccruals(f, item) != [] && forall r :: r in f.reversals ==> r.quantity >= 0.0
    ensures !OutcomeOf(f, end, item).DivisionByZero?
  {
    hide OpenAccruals, Qualifying, Available, Invoiced, Quantize, Share, ReversalsOf, Unclaimed;
    var a := OpenAccruals(f, item)[0];
    ReversalsNonNegative(f.reversals, a.id);
    var unclaimed := WithUnclaimed(f.reversals, Qualifying(f, end, item));
    if |unclaimed| == 1 {
      assert unclaimed[0] in unclaimed;
      UnclaimedAtMost(f.reversals, unclaimed[0]);
    }
  }

  lemma ReversalsNonNegative(reversals: seq<Reversal>, accrual: nat)
    requires forall r :: r in reversals ==> r.quantity >= 0.0
    ensures Total(ReversalsOf(reversals, accrual), Quantity) >= 0.0
  {
    TotalNonNegative(ReversalsOf(reversals, accrual), Quantity);
  }

  lemma UnclaimedAtMost(reversals: seq<Reversal>, a: ItemAllocation)
    requires forall r :: r in reversals ==> r.quantity >= 0.0
    ensures Unclaimed(reversals, a) <= a.quantity
  {
    TotalNonNegative(Keep(reversals, (r: Reversal) => r.allocation == a.id), Quantity);
  }

  // ---- Never guessed between allocations ----

  /** The blocker for several allocations is raised only over two or more with unclaimed quantity. */
  lemma BlockerMeansRealChoice(f: Facts, end: int, item: nat, accrual: nat)
    requires OpenAccruals(f, item) != [] && item in f.items
    requires OutcomeOf(f, end, item)
      == Blocked([MultipleAllocations(f.items[item].contract, f.items[item].id, accrual)])
    ensures |WithUnclaimed(f.reversals, Qualifying(f, end, item))| >= 2
    ensures |OpenAccruals(f, item)| == 1 && OpenAccruals(f, item)[0].id == accrual
  {
    hide BalanceOf, IsOpen, Invoiced, Consumed, Unclaimed, OpenAccruals, Qualifying;
    var q := Qualifying(f, end, item);
    assert OutcomeOf(f, end, item).blockers[0].MultipleAllocations?;
    SomeUnclaimed(f.reversals, q);
  }

  /** Which outcome arises when; the check for an empty balance never fires, since an open accrual has one. */
  lemma OutcomeExactly(f: Facts, end: int, item: nat)
    requires OpenAccruals(f, item) != [] && item in f.items
    ensures var o, open, q := OutcomeOf(f, end, item), OpenAccruals(f, item), Qualifying(f, end, item);
            var contract, unclaimed := f.items[item].contract, WithUnclaimed(f.reversals, q);
            && (o.Nothing? <==>
                  if q == [] then !ContractInvoiced(f, contract, end) else Available(f.reversals, q) <= 0.0)
            && (o.Blocked? && q == [] <==> ContractInvoiced(f, contract, end) && q == [])
            && (q == [] && o.Blocked? ==>
                  |o.blockers| == |open|
                    && forall i ::
                         0 <= i < |open| ==> o.blockers[i] == ItemMatchRequired(contract, f.items[item].id, open[i].id))
            && (q != [] && Available(f.reversals, q) > 0.0 ==>
                  && unclaimed != []
                  && (|open| >= 2 <==> o == Blocked([MultipleAccruals(contract, f.items[item].id, OpenIds(open))]))
                  && (|open| == 1 && |unclaimed| >= 2 <==>
                        o == Blocked([MultipleAllocations(contract, f.items[item].id, open[0].id)]))
                  && (|open| == 1 && |unclaimed| == 1 <==> o.Reverses? || o.DivisionByZero?))
  {
    hide BalanceOf, ReversalsOf, Available, Invoiced, Unclaimed, Qualifying, WithUnclaimed, OpenAccruals,
      ContractInvoiced, Quantize, Share, NetShare;
    OpenHasBalance(f, item);
    if Available(f.reversals, Qualifying(f, end, item)) > 0.0 {
      SomeUnclaimed(f.reversals, Qualifying(f, end, item));
    }
  }

  lemma OpenHasBalance(f: Facts, item: nat)
    requires OpenAccruals(f, item) != []
    ensures var b := BalanceOf(OpenAccruals(f, item)[0], ReversalsOf(f.reversals, OpenAccruals(f, item)[0].id));
        b.quantity > 0.0 && b.cost > 0.0
  {
    hide BalanceOf, ReversalsOf;
    assert OpenAccruals(f, item)[0] in OpenAccruals(f, item);
  }

  lemma SomeUnclaimed(reversals: seq<Reversal>, qualifying: seq<ItemAllocation>)
    requires Available(reversals, qualifying) > 0.0
    ensures WithUnclaimed(reversals, qualifying) != []
  {
    hide Unclaimed;
    PositiveTerm(qualifying, (a: ItemAllocation) => Unclaimed(reversals, a));
    var x :| x in qualifying && Unclaimed(reversals, x) > 0.0;
    assert x in WithUnclaimed(reversals, qualifying);
  }

  // ---- An allocation's quantity is spent once ----

  /** The ids of allocations identify them. */
  ghost predicate DistinctAllocations(f: Facts) {
    forall a, b :: a in f.allocations && b in f.allocations && a.id == b.id ==> a == b
  }

  lemma DifferentItemsDifferentFunding(f: Facts, end: int, x: nat, y: nat)
    requires DistinctAllocations(f) && OpenAccruals(f, x) != [] && OpenAccruals(f, y) != [] && x != y
    requires OutcomeOf(f, end, x).Reverses? && OutcomeOf(f, end, y).Reverses?
    ensures OutcomeOf(f, end, x).reversal.allocation != OutcomeOf(f, end, y).reversal.allocation
    ensures OutcomeOf(f, end, x).reversal.item == x && OutcomeOf(f, end, y).reversal.item == y
  {
    hide Decide, OutcomeOf, OpenAccruals, Qualifying, WithUnclaimed, Unclaimed;
    ReversalFitsAllocation(f, end, x);
    ReversalFitsAllocation(f, end, y);
    ReversalConserves(f, end, x);
    ReversalConserves(f, end, y);
  }

  /** No two requirements draw on the same allocation, nor reverse the same item. */
  ghost predicate FundsApart(required: seq<ReversalRequired>) {
    && (forall i, j :: 0 <= i < j < |required| ==> required[i].allocation != required[j].allocation)
    && (forall i, j :: 0 <= i < j < |required| ==> required[i].item != required[j].item)
  }

  /** No allocation funds two previewed reversals and no item is reversed twice. */
  lemma {:induction false} NoAllocationFundsTwo(f: Facts, end: int, items: seq<nat>)
    requires DistinctAllocations(f) && Distinct(items) && EachOpen(f, items)
    ensures FundsApart(PreviewOf(f, end, items).reversals)
  {
    hide OutcomeOf, OpenAccruals;
    if items == [] {
    } else {
      var front, last := items[..|items| - 1], items[|items| - 1];
      assert last !in front;
      PreviewStep(f, end, items);
      NoAllocationFundsTwo(f, end, front);
      PreviewMembers(f, end, front);
      if OutcomeOf(f, end, last).Reverses? {
        forall r | r in PreviewOf(f, end, front).reversals
          ensures r.allocation != OutcomeOf(f, end, last).reversal.allocation
            && r.item != OutcomeOf(f, end, last).reversal.item
        {
          var id :| id in front && YieldsReversal(f, end, id, r);
          DifferentItemsDifferentFunding(f, end, id, last);
        }
      }
    }
  }

  /** The reversal rows a preview asks for. */
  function Rows(required: seq<ReversalRequired>): seq<Reversal> {
    Map(required, (r: ReversalRequired) => Reversal(r.accrual, r.allocation, r.quantity, r.cost))
  }

  lemma {:induction false} ConsumedByRows(reversals: seq<Reversal>, required: seq<ReversalRequired>, allocation: nat,
      i: int)
    requires FundsApart(required) && -1 <= i < |required|
    requires i >= 0 ==> required[i].allocation == allocation
    requires i < 0 ==> forall j :: 0 <= j < |required| ==> required[j].allocation != allocation
    ensures Consumed(reversals + Rows(required), allocation)
         == Consumed(reversals, allocation) + (if i >= 0 then required[i].quantity else 0.0)
  {
    hide Consumed;
    if required == [] {
      assert reversals + Rows(required) == reversals;
    } else {
      var n := |required| - 1;
      var front, last := required[..n], required[n];
      var row := Reversal(last.accrual, last.allocation, last.quantity, last.cost);
      ConsumedByRows(reversals, front, allocation, if i == n then -1 else i);
      assert reversals + Rows(required) == (reversals + Rows(front)) + [row];
      ConsumedAppend(reversals + Rows(front), row, allocation);
    }
  }

  /** Recording everything a preview asks for keeps every allocation within its quantity. */
  lemma SharedQuantityNeverDoubleSpent(f: Facts, end: int, a: ItemAllocation)
    requires DistinctAllocations(f) && a in f.allocations && Consumed(f.reversals, a.id) <= a.quantity
    ensures Consumed(f.reversals + Rows(Preview(f, end).reversals), a.id) <= a.quantity
  {
    hide OutcomeOf, OpenAccruals, Consumed, PreviewOf, OpenItems, Rows;
    AllOpen(f);
    var items := OpenItems(f, f.accruals);
    var required := PreviewOf(f, end, items).reversals;
    ItemsDistinct(f);
    NoAllocationFundsTwo(f, end, items);
    PreviewMembers(f, end, items);
    if i: int :| 0 <= i < |required| && required[i].allocation == a.id {
      ConsumedByRows(f.reversals, required, a.id, i);
      FromItem(f, end, items, required[i]);
      var id :| id in items && YieldsReversal(f, end, id, required[i]);
      ReversalFitsAllocation(f, end, id);
    } else {
      ConsumedByRows(f.reversals, required, a.id, -1);
    }
  }

  lemma FromItem(f: Facts, end: int, items: seq<nat>, r: ReversalRequired)
    requires EachOpen(f, items) && r in PreviewOf(f, end, items).reversals
    ensures exists id :: id in items && YieldsReversal(f, end, id, r)
  {
    hide PreviewOf, OutcomeOf, OpenAccruals, YieldsReversal, YieldsDifference, YieldsBlocker, Emit;
    PreviewMembers(f, end, items);
  }

  lemma ItemsDistinct(f: Facts)
    ensures Distinct(OpenItems(f, f.accruals))
  {
  }
}
