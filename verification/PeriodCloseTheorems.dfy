/** Where a previewed reversal comes from, that it conserves the accrual, and what the preview holds as a set. */
module PeriodCloseTheorems {
  import opened Sequences
  import opened Rounding
  import opened PeriodCloseRules

  // ---- The arithmetic of one reversal ----

  /** The amounts of a reversal, read off the balance and the allocation it draws on. */
  lemma ReverseAmounts(a: Accrual, b: Balance, contract: nat, source: ItemAllocation, unclaimed: real)
    requires Reverse(a, b, contract, source, unclaimed).Reverses?
    ensures var r := Reverse(a, b, contract, source, unclaimed).reversal;
            && r.quantity == ReversedQuantity(b, unclaimed) && r.remainingQuantity == b.quantity - r.quantity
            && (r.quantity != b.quantity ==> a.quantity != 0.0)
            && r.cost == ReversedCost(a, b, r.quantity)
  {
    hide Quantize, Share, NetShare;
  }

  /** An accrual reversed is its item's only open one, and one allocation of the item has quantity unclaimed. */
  ghost predicate SoleChoice(f: Facts, end: int, item: nat)
    requires OpenAccruals(f, item) != []
  {
    var a, unclaimed := OpenAccruals(f, item)[0], WithUnclaimed(f.reversals, Qualifying(f, end, item));
    && OpenAccruals(f, item) == [a] && |unclaimed| == 1 && item in f.items
    && BalanceOf(a, ReversalsOf(f.reversals, a.id)).quantity > 0.0
         && BalanceOf(a, ReversalsOf(f.reversals, a.id)).cost > 0.0
  }

  lemma ReversalChoice(f: Facts, end: int, item: nat)
    requires OpenAccruals(f, item) != [] && OutcomeOf(f, end, item).Reverses?
    ensures SoleChoice(f, end, item)
    ensures var a := OpenAccruals(f, item)[0];
            var source := WithUnclaimed(f.reversals, Qualifying(f, end, item))[0];
            OutcomeOf(f, end, item)
              == Reverse(a, BalanceOf(a, ReversalsOf(f.reversals, a.id)), f.items[item].contract, source,
                         Unclaimed(f.reversals, source))
  {
    hide BalanceOf, ReversalsOf, Available, Reverse, OpenAccruals, Qualifying, WithUnclaimed, Unclaimed;
    var open := OpenAccruals(f, item);
    assert |open| == 1 ==> open == [open[0]];
  }

  lemma OpenMember(f: Facts, item: nat)
    requires OpenAccruals(f, item) != []
    ensures OpenAccruals(f, item)[0] in f.accruals && OpenAccruals(f, item)[0].item == item
  {
    hide IsOpen;
    assert OpenAccruals(f, item)[0] in OpenAccruals(f, item);
  }

  lemma UnclaimedMember(f: Facts, end: int, item: nat)
    requires WithUnclaimed(f.reversals, Qualifying(f, end, item)) != []
    ensures var source := WithUnclaimed(f.reversals, Qualifying(f, end, item))[0];
            source in f.allocations && source.item == item && Invoiced(f, source, end)
              && Unclaimed(f.reversals, source) > 0.0
  {
    hide Invoiced, Unclaimed;
    var unclaimed := WithUnclaimed(f.reversals, Qualifying(f, end, item));
    assert unclaimed[0] in unclaimed;
  }

  /** How a previewed reversal comes about. */
  lemma ReversalOrigin(f: Facts, end: int, item: nat)
    requires OpenAccruals(f, item) != [] && OutcomeOf(f, end, item).Reverses?
    ensures var a := OpenAccruals(f, item)[0];
            var b := BalanceOf(a, ReversalsOf(f.reversals, a.id));
            var unclaimed := WithUnclaimed(f.reversals, Qualifying(f, end, item));
            && OpenAccruals(f, item) == [a] && a in f.accruals && a.item == item
            && b.quantity > 0.0 && b.cost > 0.0
            && |unclaimed| == 1 && unclaimed[0] in f.allocations && unclaimed[0].item == item
                 && Invoiced(f, unclaimed[0], end)
            && Unclaimed(f.reversals, unclaimed[0]) > 0.0 && item in f.items
            && OutcomeOf(f, end, item)
                 == Reverse(a, b, f.items[item].contract, unclaimed[0], Unclaimed(f.reversals, unclaimed[0]))
            && var r := OutcomeOf(f, end, item).reversal;
               && r.quantity == ReversedQuantity(b, Unclaimed(f.reversals, unclaimed[0]))
               && r.remainingQuantity == b.quantity - r.quantity
               && (r.quantity != b.quantity ==> a.quantity != 0.0)
               && r.cost == ReversedCost(a, b, r.quantity)
  {
    hide OutcomeOf, BalanceOf, ReversalsOf, Reverse, OpenAccruals, Qualifying, WithUnclaimed, Unclaimed, Invoiced,
      ReversedCost, ReversedQuantity;
    ReversalChoice(f, end, item);
    OpenMember(f, item);
    UnclaimedMember(f, end, item);
    var a := OpenAccruals(f, item)[0];
    var source := WithUnclaimed(f.reversals, Qualifying(f, end, item))[0];
    ReverseAmounts(a, BalanceOf(a, ReversalsOf(f.reversals, a.id)), f.items[item].contract, source,
                   Unclaimed(f.reversals, source));
  }

  /** Reversed before, reversed now and remaining add up to the original, for quantity and cost. */
  lemma ReversalConserves(f: Facts, end: int, item: nat)
    requires OpenAccruals(f, item) != [] && OutcomeOf(f, end, item).Reverses?
    ensures var a, r := OpenAccruals(f, item)[0], OutcomeOf(f, end, item).reversal;
            var own := ReversalsOf(f.reversals, a.id);
            && r.accrual == a.id && r.item == item && r.fact == a.fact
            && Total(own, Quantity) + r.quantity + r.remainingQuantity == a.quantity
            && Total(own, Cost) + r.cost + r.remainingCost == a.cost
            && 0.0 < r.quantity && 0.0 <= r.remainingQuantity
            && (r.remainingQuantity == 0.0 <==> r.status.Reversed?)
            && (r.remainingQuantity == 0.0 ==> r.remainingCost == 0.0)
            && (r.remainingQuantity > 0.0 && Total(own, Quantity) >= 0.0 ==> r.status.PartiallyReversed?)
            && item in f.items && r.contract == f.items[item].contract
            && var d := OutcomeOf(f, end, item).difference;
               d.contract == r.contract && d.item == r.item && d.fact == r.fact && d.allocation == r.allocation
                 && d.reversed == r.cost
  {
    hide Qualifying, WithUnclaimed, Invoiced, Unclaimed, ReversalsOf, OpenAccruals, Decide, OutcomeOf, Quantize;
    ReversalOrigin(f, end, item);
  }

  lemma TotalAppend<T>(s: seq<T>, x: T, weight: T -> real)
    ensures Total(s + [x], weight) == Total(s, weight) + weight(x)
  {
    assert (s + [x])[..|s|] == s;
  }

  // ---- The preview as a set ----

  ghost predicate YieldsReversal(f: Facts, end: int, id: nat, r: ReversalRequired) {
    OpenAccruals(f, id) != [] && OutcomeOf(f, end, id).Reverses? && OutcomeOf(f, end, id).reversal == r
  }

  ghost predicate YieldsDifference(f: Facts, end: int, id: nat, d: Difference) {
    OpenAccruals(f, id) != [] && OutcomeOf(f, end, id).Reverses? && OutcomeOf(f, end, id).difference == d
  }

  ghost predicate YieldsBlocker(f: Facts, end: int, id: nat, b: Blocker) {
    OpenAccruals(f, id) != [] && OutcomeOf(f, end, id).Blocked? && b in OutcomeOf(f, end, id).blockers
  }

  ghost predicate EachOpen(f: Facts, items: seq<nat>) { forall id :: id in items ==> OpenAccruals(f, id) != [] }

  lemma PreviewStep(f: Facts, end: int, items: seq<nat>)
    requires items != [] && EachOpen(f, items)
    ensures var front, last := items[..|items| - 1], items[|items| - 1];
            && EachOpen(f, front) && last in items && (forall id :: id in items <==> id in front || id == last)
            && PreviewOf(f, end, items) == Emit(PreviewOf(f, end, front), OutcomeOf(f, end, last))
            && (forall r :: r in PreviewOf(f, end, items).reversals
                  <==> r in PreviewOf(f, end, front).reversals || YieldsReversal(f, end, last, r))
            && (forall d :: d in PreviewOf(f, end, items).differences
                  <==> d in PreviewOf(f, end, front).differences || YieldsDifference(f, end, last, d))
            && (forall b :: b in PreviewOf(f, end, items).blockers
                  <==> b in PreviewOf(f, end, front).blockers || YieldsBlocker(f, end, last, b))
  {
    hide OutcomeOf, OpenAccruals;
    var front, last := items[..|items| - 1], items[|items| - 1];
    assert items == front + [last];
  }

  /** Exactly what some open item yields is previewed. */
  lemma {:induction false} PreviewMembers(f: Facts, end: int, items: seq<nat>)
    requires EachOpen(f, items)
    ensures var v := PreviewOf(f, end, items);
            && (forall r :: r in v.reversals <==> exists id :: id in items && YieldsReversal(f, end, id, r))
            && (forall d :: d in v.differences <==> exists id :: id in items && YieldsDifference(f, end, id, d))
            && (forall b :: b in v.blockers <==> exists id :: id in items && YieldsBlocker(f, end, id, b))
  {
    if items == [] {
    } else {
      hide PreviewOf, OutcomeOf, OpenAccruals, YieldsReversal, YieldsDifference, YieldsBlocker, Emit;
      PreviewStep(f, end, items);
      PreviewMembers(f, end, items[..|items| - 1]);
    }
  }

  lemma ConsumedAppend(reversals: seq<Reversal>, r: Reversal, allocation: nat)
    ensures Consumed(reversals + [r], allocation)
      == Consumed(reversals, allocation) + (if r.allocation == allocation then r.quantity else 0.0)
  {
    var keep := (x: Reversal) => x.allocation == allocation;
    assert (reversals + [r])[..|reversals|] == reversals;
    assert Keep(reversals + [r], keep) == Keep(reversals, keep) + (if keep(r) then [r] else []);
    if r.allocation == allocation {
      TotalAppend(Keep(reversals, keep), r, Quantity);
    } else {
      assert Keep(reversals + [r], keep) == Keep(reversals, keep);
    }
  }
}
