/** Nothing the reversal preview says depends on the order in which the repositories list their facts. */
module PeriodCloseOrder {
  import opened Sequences
  import opened PeriodCloseRules
  import opened PeriodCloseTheorems

  /** The same facts, listed in any order. */
  ghost predicate Relisted(f: Facts, g: Facts) {
    && multiset(f.accruals) == multiset(g.accruals)
    && multiset(f.reversals) == multiset(g.reversals)
    && multiset(f.allocations) == multiset(g.allocations)
    && multiset(f.invoiceAllocations) == multiset(g.invoiceAllocations)
    && f.items == g.items && f.invoiceItems == g.invoiceItems && f.invoices == g.invoices
  }

  /** Blockers that name the same accruals, in whatever order. */
  ghost predicate SameBlocker(b: Blocker, c: Blocker) {
    if b.MultipleAccruals? && c.MultipleAccruals? then
      b.contract == c.contract && b.item == c.item && multiset(b.accruals) == multiset(c.accruals)
    else b == c
  }

  ghost predicate Covers(b: seq<Blocker>, c: seq<Blocker>) {
    forall x :: x in b ==> exists y :: y in c && SameBlocker(x, y)
  }

  ghost predicate SameOutcome(o: Outcome, p: Outcome) {
    if o.Blocked? && p.Blocked? then Covers(o.blockers, p.blockers) && Covers(p.blockers, o.blockers) else o == p
  }

  lemma BalanceForgets(a: Accrual, s: seq<Reversal>, t: seq<Reversal>)
    requires multiset(s) == multiset(t)
    ensures BalanceOf(a, ReversalsOf(s, a.id)) == BalanceOf(a, ReversalsOf(t, a.id))
    ensures IsOpen(a, s) == IsOpen(a, t)
  {
    KeepForgetsListing(s, t, (r: Reversal) => r.accrual == a.id);
    TotalForgetsListing(ReversalsOf(s, a.id), ReversalsOf(t, a.id), Quantity);
    TotalForgetsListing(ReversalsOf(s, a.id), ReversalsOf(t, a.id), Cost);
  }

  lemma ConsumedForgets(s: seq<Reversal>, t: seq<Reversal>, allocation: nat)
    requires multiset(s) == multiset(t)
    ensures Consumed(s, allocation) == Consumed(t, allocation)
  {
    var keep := (r: Reversal) => r.allocation == allocation;
    KeepForgetsListing(s, t, keep);
    TotalForgetsListing(Keep(s, keep), Keep(t, keep), Quantity);
  }

  lemma OpenForgets(f: Facts, g: Facts, item: nat)
    requires Relisted(f, g)
    ensures multiset(OpenAccruals(f, item)) == multiset(OpenAccruals(g, item))
  {
    hide IsOpen;
    var p := (a: Accrual) => a.item == item && IsOpen(a, f.reversals);
    var q := (a: Accrual) => a.item == item && IsOpen(a, g.reversals);
    forall a | a in g.accruals
      ensures p(a) == q(a)
    {
      BalanceForgets(a, f.reversals, g.reversals);
    }
    KeepForgetsListing(f.accruals, g.accruals, p);
    KeepAgrees(g.accruals, p, q);
  }

  lemma QualifyingForgets(f: Facts, g: Facts, end: int, item: nat)
    requires Relisted(f, g)
    ensures multiset(Qualifying(f, end, item)) == multiset(Qualifying(g, end, item))
    ensures forall contract :: ContractInvoiced(f, contract, end) == ContractInvoiced(g, contract, end)
  {
    var p := (a: ItemAllocation) => a.item == item && Invoiced(f, a, end);
    KeepForgetsListing(f.allocations, g.allocations, p);
    KeepAgrees(g.allocations, p, (a: ItemAllocation) => a.item == item && Invoiced(g, a, end));
    SameMembers(f.invoiceAllocations, g.invoiceAllocations);
  }

  lemma UnclaimedForgets(s: seq<Reversal>, t: seq<Reversal>, x: seq<ItemAllocation>, y: seq<ItemAllocation>)
    requires multiset(s) == multiset(t) && multiset(x) == multiset(y)
    ensures multiset(WithUnclaimed(s, x)) == multiset(WithUnclaimed(t, y))
    ensures Available(s, x) == Available(t, y)
    ensures forall a :: Unclaimed(s, a) == Unclaimed(t, a)
  {
    hide Unclaimed;
    forall a: ItemAllocation
      ensures Unclaimed(s, a) == Unclaimed(t, a)
    {
      UnclaimedSame(s, t, a);
    }
    KeepForgetsListing(x, y, (a: ItemAllocation) => Unclaimed(s, a) > 0.0);
    KeepAgrees(y, (a: ItemAllocation) => Unclaimed(s, a) > 0.0, (a: ItemAllocation) => Unclaimed(t, a) > 0.0);
    TotalForgetsListing(x, y, (a: ItemAllocation) => Unclaimed(s, a));
    TotalAgrees(y, (a: ItemAllocation) => Unclaimed(s, a), (a: ItemAllocation) => Unclaimed(t, a));
  }

  lemma UnclaimedSame(s: seq<Reversal>, t: seq<Reversal>, a: ItemAllocation)
    requires multiset(s) == multiset(t)
    ensures Unclaimed(s, a) == Unclaimed(t, a)
  {
    ConsumedForgets(s, t, a.id);
  }

  lemma OnlyListing<T>(x: seq<T>, y: seq<T>)
    requires multiset(x) == multiset(y)
    ensures |x| == |y|
    ensures |x| == 1 ==> x == y
  {
    SameLength(x, y);
    if |x| == 1 {
      assert x == [x[0]] && y == [y[0]];
      assert y[0] in multiset(x);
    }
  }

  lemma MatchRequiredForgets(contract: nat, item: nat, x: seq<Accrual>, y: seq<Accrual>)
    requires multiset(x) == multiset(y)
    ensures Covers(MatchRequired(contract, item, x), MatchRequired(contract, item, y))
  {
    var mine, theirs := MatchRequired(contract, item, x), MatchRequired(contract, item, y);
    MapForgetsListing(x, y, (a: Accrual) => ItemMatchRequired(contract, item, a.id));
    SameMembers(mine, theirs);
    forall b | b in mine
      ensures exists c :: c in theirs && SameBlocker(b, c)
    {
      assert b in theirs && SameBlocker(b, b);
    }
  }

  lemma ScopeForgets(contract: nat, item: nat, x: seq<Accrual>, y: seq<Accrual>)
    requires multiset(x) == multiset(y)
    ensures Covers([MultipleAccruals(contract, item, OpenIds(x))], [MultipleAccruals(contract, item, OpenIds(y))])
  {
    MapForgetsListing(x, y, (a: Accrual) => a.id);
    var b, c := MultipleAccruals(contract, item, OpenIds(x)), MultipleAccruals(contract, item, OpenIds(y));
    assert SameBlocker(b, c) && c in [c];
  }

  lemma DecideForgets(s: seq<Reversal>, t: seq<Reversal>, item: ContractItem, open: seq<Accrual>, alike: seq<Accrual>,
                      x: seq<ItemAllocation>, y: seq<ItemAllocation>, invoiced: bool)
    requires open != [] && alike != []
    requires multiset(s) == multiset(t) && multiset(open) == multiset(alike) && multiset(x) == multiset(y)
    ensures SameOutcome(Decide(s, item, open, x, invoiced), Decide(t, item, alike, y, invoiced))
  {
    hide Available, WithUnclaimed, Unclaimed, BalanceOf, ReversalsOf, Reverse, MatchRequired, OpenIds;
    OnlyListing(x, y);
    OnlyListing(open, alike);
    UnclaimedForgets(s, t, x, y);
    OnlyListing(WithUnclaimed(s, x), WithUnclaimed(t, y));
    BalanceForgets(open[0], s, t);
    MatchRequiredForgets(item.contract, item.id, open, alike);
    MatchRequiredForgets(item.contract, item.id, alike, open);
    ScopeForgets(item.contract, item.id, open, alike);
    ScopeForgets(item.contract, item.id, alike, open);
    var b := MultipleAllocations(item.contract, item.id, open[0].id);
    assert SameBlocker(b, b) && b in [b];
    assert Covers([b], [b]);
  }

  lemma OutcomeForgets(f: Facts, g: Facts, end: int, item: nat)
    requires Relisted(f, g)
    ensures OpenAccruals(f, item) == [] <==> OpenAccruals(g, item) == []
    ensures OpenAccruals(f, item) != [] ==> SameOutcome(OutcomeOf(f, end, item), OutcomeOf(g, end, item))
  {
    hide OpenAccruals, Qualifying, ContractInvoiced, Decide, SameOutcome;
    OpenForgets(f, g, item);
    SameLength(OpenAccruals(f, item), OpenAccruals(g, item));
    QualifyingForgets(f, g, end, item);
    if OpenAccruals(f, item) != [] {
      if item in f.items {
        DecideForgets(f.reversals, g.reversals, f.items[item], OpenAccruals(f, item), OpenAccruals(g, item),
                      Qualifying(f, end, item), Qualifying(g, end, item),
                      ContractInvoiced(f, f.items[item].contract, end));
      } else {
        NothingIsNothing();
      }
    }
  }

  lemma NothingIsNothing()
    ensures SameOutcome(Nothing, Nothing)
  {
  }

  ghost predicate SamePreview(v: Reversing, w: Reversing) {
    && (forall r :: r in v.reversals ==> r in w.reversals)
    && (forall d :: d in v.differences ==> d in w.differences)
    && Covers(v.blockers, w.blockers)
  }

  /** What an item yields under one listing it yields under the other. */
  lemma YieldsForgets(f: Facts, g: Facts, end: int, id: nat)
    requires Relisted(f, g)
    ensures forall r :: YieldsReversal(f, end, id, r) ==> YieldsReversal(g, end, id, r)
    ensures forall d :: YieldsDifference(f, end, id, d) ==> YieldsDifference(g, end, id, d)
    ensures forall b :: YieldsBlocker(f, end, id, b) ==> exists c :: YieldsBlocker(g, end, id, c) && SameBlocker(b, c)
  {
    hide OpenAccruals, OutcomeOf, Relisted, SameBlocker;
    OutcomeForgets(f, g, end, id);
    forall b | YieldsBlocker(f, end, id, b)
      ensures exists c :: YieldsBlocker(g, end, id, c) && SameBlocker(b, c)
    {
      var c :| c in OutcomeOf(g, end, id).blockers && SameBlocker(b, c);
      assert YieldsBlocker(g, end, id, c);
    }
  }

  lemma ItemsForget(f: Facts, g: Facts, id: nat)
    requires Relisted(f, g)
    ensures id in OpenItems(f, f.accruals) <==> id in OpenItems(g, g.accruals)
  {
    hide OpenAccruals, OpenItems, Relisted, HasOpen;
    OutcomeForgets(f, g, 0, id);
    HasOpenAccruals(f, id);
    HasOpenAccruals(g, id);
  }

  /** Exactly what some item with an open accrual yields is previewed. */
  lemma PreviewIs(f: Facts, end: int)
    ensures var v, items := Preview(f, end), OpenItems(f, f.accruals);
            && (forall r :: r in v.reversals <==> exists id :: id in items && YieldsReversal(f, end, id, r))
            && (forall d :: d in v.differences <==> exists id :: id in items && YieldsDifference(f, end, id, d))
            && (forall b :: b in v.blockers <==> exists id :: id in items && YieldsBlocker(f, end, id, b))
  {
    hide OpenAccruals, OpenItems, YieldsReversal, YieldsDifference, YieldsBlocker;
    AllOpen(f);
    var items := OpenItems(f, f.accruals);
    PreviewMembers(f, end, items);
    assert Preview(f, end) == PreviewOf(f, end, items);
  }

  lemma PreviewWithin(f: Facts, g: Facts, end: int)
    requires Relisted(f, g)
    ensures SamePreview(Preview(f, end), Preview(g, end))
  {
    hide OpenItems, Preview, YieldsReversal, YieldsDifference, YieldsBlocker, SameBlocker, Relisted;
    PreviewIs(f, end);
    PreviewIs(g, end);
    var v, w, items := Preview(f, end), Preview(g, end), OpenItems(f, f.accruals);
    forall id
      ensures id in items <==> id in OpenItems(g, g.accruals)
    {
      ItemsForget(f, g, id);
    }
    forall r | r in v.reversals
      ensures r in w.reversals
    {
      var id :| id in items && YieldsReversal(f, end, id, r);
      YieldsForgets(f, g, end, id);
    }
    forall d | d in v.differences
      ensures d in w.differences
    {
      var id :| id in items && YieldsDifference(f, end, id, d);
      YieldsForgets(f, g, end, id);
    }
    forall b | b in v.blockers
      ensures exists c :: c in w.blockers && SameBlocker(b, c)
    {
      var id :| id in items && YieldsBlocker(f, end, id, b);
      YieldsForgets(f, g, end, id);
    }
  }

  /** Relisting the facts changes neither the reversals, the differences nor the blockers, as sets. */
  lemma OrderDoesNotMatter(f: Facts, g: Facts, end: int)
    requires Relisted(f, g)
    ensures SamePreview(Preview(f, end), Preview(g, end)) && SamePreview(Preview(g, end), Preview(f, end))
  {
    hide *;
    RelistedBack(f, g);
    PreviewWithin(f, g, end);
    PreviewWithin(g, f, end);
  }

  lemma RelistedBack(f: Facts, g: Facts)
    requires Relisted(f, g)
    ensures Relisted(g, f)
  {
  }
}
