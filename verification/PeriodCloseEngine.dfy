/** The period-close preview as it is computed: index tables filled in loops, then one pass over the items. */
module PeriodCloseEngine {
  import opened Options
  import opened Sequences
  import opened Rounding
  import opened PeriodCloseRules
  import opened PeriodCloseTheorems
  import opened NewAccrualRules

  // ---- Index tables: a key's list, empty where the key is absent ----

  function Listed<T>(m: map<nat, seq<T>>, key: nat): seq<T> { if key in m then m[key] else [] }

  function Amount(m: map<nat, real>, key: nat): real { if key in m then m[key] else 0.0 }

  function Append<T>(m: map<nat, seq<T>>, key: nat, x: T): map<nat, seq<T>> { m[key := Listed(m, key) + [x]] }

  lemma KeepNext<T(!new)>(s: seq<T>, i: nat, f: T -> bool)
    requires i < |s|
    ensures Keep(s[..i + 1], f) == Keep(s[..i], f) + (if f(s[i]) then [s[i]] else [])
  {
    assert s[..i + 1][..i] == s[..i];
  }

  lemma AppendListed<T>(m: map<nat, seq<T>>, key: nat, x: T)
    ensures forall k: nat :: Listed(Append(m, key, x), k) == if k == key then Listed(m, k) + [x] else Listed(m, k)
  {
  }

  ghost predicate ByAccrual(index: map<nat, seq<Reversal>>, reversals: seq<Reversal>) {
    forall id: nat :: Listed(index, id) == ReversalsOf(reversals, id)
  }

  lemma ByAccrualNone()
    ensures ByAccrual(map[], [])
  {
  }

  lemma ByAccrualNext(index: map<nat, seq<Reversal>>, reversals: seq<Reversal>, i: nat)
    requires i < |reversals| && ByAccrual(index, reversals[..i])
    ensures ByAccrual(Append(index, reversals[i].accrual, reversals[i]), reversals[..i + 1])
  {
    var next := Append(index, reversals[i].accrual, reversals[i]);
    forall id: nat
      ensures Listed(next, id) == ReversalsOf(reversals[..i + 1], id)
    {
      KeepNext(reversals, i, (r: Reversal) => r.accrual == id);
      AppendListed(index, reversals[i].accrual, reversals[i]);
    }
  }

  method IndexReversals(reversals: seq<Reversal>) returns (index: map<nat, seq<Reversal>>)
    ensures ByAccrual(index, reversals)
  {
    hide *;
    index := map[];
    ByAccrualNone();
    for i := 0 to |reversals|
      invariant ByAccrual(index, reversals[..i])
    {
      ByAccrualNext(index, reversals, i);
      index := Append(index, reversals[i].accrual, reversals[i]);
    }
    assert reversals[..|reversals|] == reversals;
  }

  function AllocationsOf(allocations: seq<ItemAllocation>, item: nat): seq<ItemAllocation> {
    Keep(allocations, (a: ItemAllocation) => a.item == item)
  }

  ghost predicate ByItem(index: map<nat, seq<ItemAllocation>>, allocations: seq<ItemAllocation>) {
    forall id: nat :: Listed(index, id) == AllocationsOf(allocations, id)
  }

  lemma ByItemNone()
    ensures ByItem(map[], [])
  {
  }

  lemma ByItemNext(index: map<nat, seq<ItemAllocation>>, allocations: seq<ItemAllocation>, i: nat)
    requires i < |allocations| && ByItem(index, allocations[..i])
    ensures ByItem(Append(index, allocations[i].item, allocations[i]), allocations[..i + 1])
  {
    var next := Append(index, allocations[i].item, allocations[i]);
    forall id: nat
      ensures Listed(next, id) == AllocationsOf(allocations[..i + 1], id)
    {
      KeepNext(allocations, i, (a: ItemAllocation) => a.item == id);
      AppendListed(index, allocations[i].item, allocations[i]);
    }
  }

  method IndexAllocations(allocations: seq<ItemAllocation>) returns (index: map<nat, seq<ItemAllocation>>)
    ensures ByItem(index, allocations)
  {
    hide *;
    index := map[];
    ByItemNone();
    for i := 0 to |allocations|
      invariant ByItem(index, allocations[..i])
    {
      ByItemNext(index, allocations, i);
      index := Append(index, allocations[i].item, allocations[i]);
    }
    assert allocations[..|allocations|] == allocations;
  }

  ghost function OpenOf(f: Facts, accruals: seq<Accrual>, item: nat): seq<Accrual> {
    Keep(accruals, (a: Accrual) => a.item == item && IsOpen(a, f.reversals))
  }

  /** The open accruals by item, and the items in the order their first open accrual is met. */
  ghost predicate OpenByItem(index: map<nat, seq<Accrual>>, order: seq<nat>, f: Facts, accruals: seq<Accrual>) {
    && order == OpenItems(f, accruals)
    && (forall item: nat :: Listed(index, item) == OpenOf(f, accruals, item))
    && (forall item: nat :: item in index <==> item in order)
  }

  lemma OpenByItemNone(f: Facts)
    ensures OpenByItem(map[], [], f, [])
  {
  }

  lemma OpenByItemNext(index: map<nat, seq<Accrual>>, order: seq<nat>, f: Facts, i: nat)
    requires i < |f.accruals| && OpenByItem(index, order, f, f.accruals[..i])
    ensures var a := f.accruals[i];
            if IsOpen(a, f.reversals) then
              OpenByItem(Append(index, a.item, a), if a.item in index then order else order + [a.item], f,
                         f.accruals[..i + 1])
            else OpenByItem(index, order, f, f.accruals[..i + 1])
  {
    hide IsOpen, Append, Listed, OpenOf, OpenItems;
    var a := f.accruals[i];
    forall item: nat
      ensures IsOpen(a, f.reversals) ==> Listed(Append(index, a.item, a), item) == OpenOf(f, f.accruals[..i + 1], item)
      ensures !IsOpen(a, f.reversals) ==> Listed(index, item) == OpenOf(f, f.accruals[..i + 1], item)
    {
      OpenListedNext(index, f, i, item);
    }
    AppendKeys(index, a.item, a);
    ItemsNext(f, i);
  }

  lemma OpenListedNext(index: map<nat, seq<Accrual>>, f: Facts, i: nat, item: nat)
    requires i < |f.accruals| && Listed(index, item) == OpenOf(f, f.accruals[..i], item)
    ensures var a := f.accruals[i];
            Listed(if IsOpen(a, f.reversals) then Append(index, a.item, a) else index, item)
              == OpenOf(f, f.accruals[..i + 1], item)
  {
    hide IsOpen;
    KeepNext(f.accruals, i, (a: Accrual) => a.item == item && IsOpen(a, f.reversals));
  }

  lemma AppendKeys<T>(m: map<nat, seq<T>>, key: nat, x: T)
    ensures Append(m, key, x).Keys == m.Keys + {key}
  {
  }

  lemma ItemsNext(f: Facts, i: nat)
    requires i < |f.accruals|
    ensures var a, met := f.accruals[i], OpenItems(f, f.accruals[..i]);
            OpenItems(f, f.accruals[..i + 1]) == if IsOpen(a, f.reversals) && a.item !in met then met + [a.item]
              else met
  {
    hide IsOpen;
    assert f.accruals[..i + 1][..i] == f.accruals[..i];
  }

  lemma OpenByAccrual(a: Accrual, index: map<nat, seq<Reversal>>, reversals: seq<Reversal>)
    requires ByAccrual(index, reversals)
    ensures var b := BalanceOf(a, Listed(index, a.id)); (b.quantity > 0.0 && b.cost > 0.0) == IsOpen(a, reversals)
  {
    assert Listed(index, a.id) == ReversalsOf(reversals, a.id);
  }

  lemma OpenByItemIs(index: map<nat, seq<Accrual>>, order: seq<nat>, f: Facts, item: nat)
    requires OpenByItem(index, order, f, f.accruals)
    ensures order == OpenItems(f, f.accruals) && Listed(index, item) == OpenAccruals(f, item)
  {
    assert Listed(index, item) == OpenOf(f, f.accruals, item);
  }

  method IndexOpenAccruals(f: Facts, byAccrual: map<nat, seq<Reversal>>)
    returns (index: map<nat, seq<Accrual>>, order: seq<nat>)
    requires ByAccrual(byAccrual, f.reversals)
    ensures OpenByItem(index, order, f, f.accruals)
  {
    hide *;
    index, order := map[], [];
    OpenByItemNone(f);
    for i := 0 to |f.accruals|
      invariant OpenByItem(index, order, f, f.accruals[..i])
    {
      var accrual := f.accruals[i];
      OpenByItemNext(index, order, f, i);
      OpenByAccrual(accrual, byAccrual, f.reversals);
      var b := BalanceOf(accrual, Listed(byAccrual, accrual.id));
      if b.quantity > 0.0 && b.cost > 0.0 {
        if accrual.item !in index {
          order := order + [accrual.item];
        }
        index := Append(index, accrual.item, accrual);
      }
    }
    assert f.accruals[..|f.accruals|] == f.accruals;
  }

  // ---- What has been consumed of the qualifying allocations ----

  ghost predicate DistinctIds(s: seq<ItemAllocation>) {
    forall i, j :: 0 <= i < j < |s| ==> s[i].id != s[j].id
  }

  lemma {:induction false} KeepDistinctIds(s: seq<ItemAllocation>, f: ItemAllocation -> bool)
    requires DistinctIds(s)
    ensures DistinctIds(Keep(s, f))
  {
    if s == [] {
    } else {
      var front := s[..|s| - 1];
      KeepDistinctIds(front, f);
      forall x | x in Keep(front, f)
        ensures x.id != s[|s| - 1].id
      {
        var i :| 0 <= i < |front| && front[i] == x;
      }
    }
  }

  ghost function AllConsumed(reversals: seq<Reversal>, qualifying: seq<ItemAllocation>): real {
    Total(qualifying, (a: ItemAllocation) => Consumed(reversals, a.id))
  }

  ghost function Sum(m: map<nat, real>, keys: seq<nat>): real { Total(keys, (k: nat) => Amount(m, k)) }

  ghost predicate Known(qualifying: seq<ItemAllocation>, id: nat) { exists a :: a in qualifying && a.id == id }

  lemma ConsumedNext(reversals: seq<Reversal>, i: nat)
    requires i < |reversals|
    ensures forall id :: Consumed(reversals[..i + 1], id)
                      == Consumed(reversals[..i], id)
                           + (if reversals[i].allocation == id then reversals[i].quantity else 0.0)
  {
    hide Consumed;
    forall id: nat
      ensures Consumed(reversals[..i + 1], id)
        == Consumed(reversals[..i], id) + (if reversals[i].allocation == id then reversals[i].quantity else 0.0)
    {
      ConsumedAppend(reversals[..i], reversals[i], id);
      assert reversals[..i + 1] == reversals[..i] + [reversals[i]];
    }
  }

  lemma AllConsumedNext(reversals: seq<Reversal>, i: nat, qualifying: seq<ItemAllocation>)
    requires i < |reversals| && DistinctIds(qualifying)
    ensures AllConsumed(reversals[..i + 1], qualifying)
         == AllConsumed(reversals[..i], qualifying)
              + (if Known(qualifying, reversals[i].allocation) then reversals[i].quantity else 0.0)
  {
    hide Consumed;
    ConsumedNext(reversals, i);
    var v, w := (a: ItemAllocation) => Consumed(reversals[..i], a.id),
      (a: ItemAllocation) => Consumed(reversals[..i + 1], a.id);
    if Known(qualifying, reversals[i].allocation) {
      var a :| a in qualifying && a.id == reversals[i].allocation;
      var k :| 0 <= k < |qualifying| && qualifying[k] == a;
      TotalRaised(qualifying, v, w, k, reversals[i].quantity);
    } else {
      TotalAgrees(qualifying, v, w);
    }
  }

  lemma SumNext(m: map<nat, real>, keys: seq<nat>, key: nat, more: real)
    requires Distinct(keys) && forall k :: k in keys <==> k in m
    ensures Sum(m[key := Amount(m, key) + more], if key in m then keys else keys + [key]) == Sum(m, keys) + more
  {
    var n := m[key := Amount(m, key) + more];
    var v, w := (k: nat) => Amount(m, k), (k: nat) => Amount(n, k);
    if key in m {
      var i :| 0 <= i < |keys| && keys[i] == key;
      TotalRaised(keys, v, w, i, more);
    } else {
      TotalAgrees(keys, v, w);
      TotalAppend(keys, key, w);
    }
  }

  /** The table after the first reversals: every qualifying allocation's consumption, summing to all of it. */
  ghost predicate Tallied(m: map<nat, real>, keys: seq<nat>, reversals: seq<Reversal>,
      qualifying: seq<ItemAllocation>) {
    && Distinct(keys) && (forall k :: k in keys <==> k in m)
    && (forall a :: a in qualifying ==> Amount(m, a.id) == Consumed(reversals, a.id))
    && Sum(m, keys) == AllConsumed(reversals, qualifying)
  }

  function Charged(m: map<nat, real>, r: Reversal): map<nat, real> {
    m[r.allocation := Amount(m, r.allocation) + r.quantity]
  }

  lemma TalliedNext(m: map<nat, real>, keys: seq<nat>, reversals: seq<Reversal>, i: nat,
      qualifying: seq<ItemAllocation>)
    requires i < |reversals| && DistinctIds(qualifying) && Tallied(m, keys, reversals[..i], qualifying)
    ensures !Known(qualifying, reversals[i].allocation) ==> Tallied(m, keys, reversals[..i + 1], qualifying)
    ensures Known(qualifying, reversals[i].allocation) ==>
      Tallied(Charged(m, reversals[i]), if reversals[i].allocation in m then keys else keys + [reversals[i].allocation],
              reversals[..i + 1], qualifying)
  {
    hide Consumed, AllConsumed, Sum, DistinctIds;
    var r := reversals[i];
    ConsumedNext(reversals, i);
    AllConsumedNext(reversals, i, qualifying);
    SumNext(m, keys, r.allocation, r.quantity);
  }

  lemma TalliedNone(qualifying: seq<ItemAllocation>)
    ensures Tallied(map[], [], [], qualifying)
  {
    TotalAgrees(qualifying, (a: ItemAllocation) => Consumed([], a.id), (a: ItemAllocation) => 0.0);
    TotalZero(qualifying);
  }

  lemma TalliedGives(m: map<nat, real>, keys: seq<nat>, reversals: seq<Reversal>, qualifying: seq<ItemAllocation>)
    requires Tallied(m, keys, reversals, qualifying)
    ensures forall a :: a in qualifying ==> Amount(m, a.id) == Consumed(reversals, a.id)
    ensures forall k :: k in keys ==> k in m
    ensures Sum(m, keys) == AllConsumed(reversals, qualifying)
  {
  }

  method IdsOf(qualifying: seq<ItemAllocation>) returns (ids: set<nat>)
    ensures forall id: nat :: id in ids <==> Known(qualifying, id)
  {
    ids := set a | a in qualifying :: a.id;
  }

  /** Consumption per qualifying allocation, and the total of the table. */
  method ConsumptionOf(reversals: seq<Reversal>, qualifying: seq<ItemAllocation>)
    returns (consumed: map<nat, real>, total: real)
    requires DistinctIds(qualifying)
    ensures forall a :: a in qualifying ==> Amount(consumed, a.id) == Consumed(reversals, a.id)
    ensures total == AllConsumed(reversals, qualifying)
  {
    hide *;
    var ids := IdsOf(qualifying);
    var keys := [];
    consumed := map[];
    TalliedNone(qualifying);
    for i := 0 to |reversals|
      invariant Tallied(consumed, keys, reversals[..i], qualifying)
    {
      var reversal := reversals[i];
      TalliedNext(consumed, keys, reversals, i, qualifying);
      if reversal.allocation in ids {
        if reversal.allocation !in consumed {
          keys := keys + [reversal.allocation];
        }
        consumed := Charged(consumed, reversal);
      }
    }
    assert reversals[..|reversals|] == reversals;
    TalliedGives(consumed, keys, reversals, qualifying);
    total := SumOf(consumed, keys);
  }

  method SumOf(m: map<nat, real>, keys: seq<nat>) returns (total: real)
    requires forall k :: k in keys ==> k in m
    ensures total == Sum(m, keys)
  {
    total := 0.0;
    for i := 0 to |keys|
      invariant total == Sum(m, keys[..i])
    {
      assert keys[..i + 1][..i] == keys[..i];
      total := total + m[keys[i]];
    }
    assert keys[..|keys|] == keys;
  }

  lemma {:induction false} TotalZero<T>(s: seq<T>)
    ensures Total(s, (x: T) => 0.0) == 0.0
  {
    if s == [] {
    } else {
      TotalZero(s[..|s| - 1]);
    }
  }

  lemma {:induction false} AvailableSplits(reversals: seq<Reversal>, qualifying: seq<ItemAllocation>)
    ensures Available(reversals, qualifying)
         == Total(qualifying, (a: ItemAllocation) => a.quantity) - AllConsumed(reversals, qualifying)
  {
    hide Consumed;
    if qualifying == [] {
    } else {
      AvailableSplits(reversals, qualifying[..|qualifying| - 1]);
    }
  }

  // ---- The preview ----

  class PeriodClosePreview {
    var reversals: seq<ReversalRequired>
    var differences: seq<Difference>
    var requirements: seq<AccrualRequired>
    var candidates: seq<Candidate>
    var blockers: seq<Blocker>

    constructor ()
      ensures View() == Reversing([], [], []) && requirements == [] && candidates == []
    {
      reversals, differences, requirements, candidates, blockers := [], [], [], [], [];
    }

    function View(): Reversing
      reads this
    {
      Reversing(reversals, differences, blockers)
    }

    /** The qualifying allocations of an item. */
    method QualifyingOf(f: Facts, end: int, byItem: map<nat, seq<ItemAllocation>>, item: nat)
      returns (qualifying: seq<ItemAllocation>)
      requires ByItem(byItem, f.allocations)
      ensures qualifying == Qualifying(f, end, item)
    {
      hide InvoicedAmong, AllocationsOf, Listed, Qualifying, PurchasedBy, ByItem;
      var own := Listed(byItem, item);
      qualifying := [];
      InvoicedNone(f, end);
      for i := 0 to |own|
        invariant qualifying == InvoicedAmong(f, end, own[..i])
      {
        InvoicedNext(f, end, own, i);
        if own[i].invoiceItem in f.invoiceItems && PurchasedBy(f, f.invoiceItems[own[i].invoiceItem], end) {
          qualifying := qualifying + [own[i]];
        }
      }
      assert own[..|own|] == own;
      ByItemGives(byItem, f.allocations, item);
      QualifyingIs(f, end, item);
    }

    /** One item with open accruals: at most one reversal and difference, or blockers. */
    method ReverseItem(f: Facts, end: int, byAccrual: map<nat, seq<Reversal>>, byItem: map<nat, seq<ItemAllocation>>,
                       id: nat, open: seq<Accrual>) returns (ok: bool)
      requires DistinctIds(f.allocations) && open != [] && open == OpenAccruals(f, id)
      requires ByAccrual(byAccrual, f.reversals)
      requires ByItem(byItem, f.allocations)
      modifies `reversals, `differences, `blockers
      ensures ok == !OutcomeOf(f, end, id).DivisionByZero?
      ensures View() == Emit(old(View()), OutcomeOf(f, end, id))
    {
      hide Qualifying, OpenAccruals, ReversalsOf, AllocationsOf, Consumed, WithUnclaimed, Quantize, Available, Share;
      if id !in f.items {
        return true;
      }
      var item := f.items[id];
      var qualifying := QualifyingOf(f, end, byItem, id);
      var contractInvoiced := ContractInvoiced(f, item.contract, end);
      if qualifying == [] {
        if contractInvoiced {
          for i := 0 to |open|
            invariant blockers == old(blockers) + MatchRequired(item.contract, item.id, open[..i])
            invariant reversals == old(reversals) && differences == old(differences)
          {
            MatchRequiredNext(item.contract, item.id, open, i);
            blockers := blockers + [ItemMatchRequired(item.contract, item.id, open[i].id)];
          }
          assert open[..|open|] == open;
        }
        return true;
      }
      QualifyingDistinct(f, end, id);
      var consumed, spent := ConsumptionOf(f.reversals, qualifying);
      var granted := TotalAllocated(qualifying);
      AvailableSplits(f.reversals, qualifying);
      if granted - spent <= 0.0 {
        return true;
      }
      if |open| > 1 {
        blockers := blockers + [MultipleAccruals(item.contract, item.id, OpenIds(open))];
        return true;
      }
      var accrual := open[0];
      var balance := BalanceOf(accrual, Listed(byAccrual, accrual.id));
      if balance.quantity <= 0.0 || balance.cost <= 0.0 {
        return true;
      }
      var unclaimed := UnclaimedOf(f.reversals, qualifying, consumed);
      if |unclaimed| != 1 {
        blockers := blockers + [MultipleAllocations(item.contract, item.id, accrual.id)];
        return true;
      }
      var source := unclaimed[0];
      SoleMember(f.reversals, qualifying);
      ok := AppendReversal(accrual, balance, item.contract, source, source.quantity - Amount(consumed, source.id));
    }

    /** The amounts of one reversal; false when a division by zero stops the preview. */
    method AppendReversal(accrual: Accrual, balance: Balance, contract: nat, source: ItemAllocation, unclaimed: real)
      returns (ok: bool)
      modifies `reversals, `differences
      ensures var o := Reverse(accrual, balance, contract, source, unclaimed);
              && ok == !o.DivisionByZero?
              && View() == Emit(old(View()), o)
    {
      hide Quantize, Share, NetShare;
      var quantity := if balance.quantity < unclaimed then balance.quantity else unclaimed;
      var cost := balance.cost;
      if quantity != balance.quantity {
        if accrual.quantity == 0.0 {
          return false;
        }
        cost := Quantize(Share(accrual, quantity));
      }
      assert quantity == ReversedQuantity(balance, unclaimed);
      if source.quantity == 0.0 {
        return false;
      }
      var actual := Quantize(NetShare(source, quantity));
      var remainingQuantity, remainingCost := balance.quantity - quantity, balance.cost - cost;
      var status := ProjectedStatus(balance.reversedQuantity + quantity, remainingQuantity);
      reversals := reversals + [ReversalRequired(accrual.id, contract, accrual.item, quantity, cost, remainingQuantity,
                                                 remainingCost,
                                                 status, accrual.fact, source.id)];
      differences := differences
        + [Difference(contract, accrual.item, actual, cost, Quantize(actual - cost), accrual.fact, source.id)];
      return true;
    }

    /** Every item with open accruals in turn, until a division by zero. */
    method ReverseAll(f: Facts, end: int) returns (ok: bool)
      requires DistinctIds(f.allocations) && View() == Reversing([], [], [])
      modifies `reversals, `differences, `blockers
      ensures ok ==> View() == Preview(f, end)
      ensures ok == !PreviewDivides(f, end)
    {
      hide *;
      var byAccrual := IndexReversals(f.reversals);
      var byItem := IndexAllocations(f.allocations);
      var index, order := IndexOpenAccruals(f, byAccrual);
      OpenByItemIs(index, order, f, 0);
      PreviewUnfolds(f, end);
      PreviewNone(f, end);
      for i := 0 to |order|
        invariant EachOpen(f, order[..i])
        invariant View() == PreviewOf(f, end, order[..i])
        invariant !Divides(f, end, order[..i])
      {
        PreviewNext(f, end, order, i);
        OpenByItemIs(index, order, f, order[i]);
        ok := ReverseItem(f, end, byAccrual, byItem, order[i], Listed(index, order[i]));
        if !ok {
          return false;
        }
      }
      assert order[..|order|] == order;
      return true;
    }

    function Needed(): Needs
      reads this
    {
      Needs(requirements, candidates, blockers)
    }

    method HasConfirmedInvoice(b: Books, contract: nat, end: int) returns (found: bool)
      ensures found == Suppressed(b, contract, end)
    {
      var allocations := b.facts.invoiceAllocations;
      for i := 0 to |allocations|
        invariant forall j :: 0 <= j < i && allocations[j].contract == contract && allocations[j].confirmed ==>
          !PurchasedBy(b.facts, allocations[j].invoice, end)
      {
        if allocations[i].contract != contract || !allocations[i].confirmed {
          continue;
        }
        if PurchasedBy(b.facts, allocations[i].invoice, end) {
          return true;
        }
      }
      return false;
    }

    /** The last basis listed for each item. */
    method BasisByItem(bases: seq<BasisFact>) returns (byItem: map<nat, BasisFact>)
      ensures forall id: nat :: (if id in byItem then Some(byItem[id]) else None) == LastFor(bases, id)
    {
      byItem := map[];
      for i := 0 to |bases|
        invariant forall id: nat :: (if id in byItem then Some(byItem[id]) else None) == LastFor(bases[..i], id)
      {
        assert bases[..i + 1][..i] == bases[..i];
        if bases[i].item.Some? {
          byItem := byItem[bases[i].item.value := bases[i]];
        }
      }
      assert bases[..|bases|] == bases;
    }

    /** One requirement per complete item without an open accrual and with a basis. */
    method RequireItems(b: Books, contract: nat, recognition: CostFact, open: set<nat>) returns (emitted: bool)
      requires forall id: nat :: id in open <==> OpenAccruals(b.facts, id) != []
      modifies `requirements
      ensures var rows := RowsFor(b, contract, recognition, Complete(b, contract));
              requirements == old(requirements) + rows && emitted == (rows != [])
    {
      hide RowsFor, OpenAccruals, ItemBases, LastFor, Complete;
      RowsNone(b, contract, recognition);
      var items := Complete(b, contract);
      var basisByItem := BasisByItem(ItemBases(b, contract));
      emitted := false;
      for i := 0 to |items|
        invariant requirements == old(requirements) + RowsFor(b, contract, recognition, items[..i])
        invariant emitted == (RowsFor(b, contract, recognition, items[..i]) != [])
      {
        RowsNext(b, contract, recognition, items, i);
        var item := items[i];
        if item.id in open {
          continue;
        }
        if item.id !in basisByItem {
          continue;
        }
        requirements := requirements + [Row(b, contract, recognition, basisByItem[item.id], item)];
        emitted := true;
      }
      assert items[..|items|] == items;
    }

    /** What one contract still needs. */
    method RequireContract(b: Books, end: int, contract: nat, open: set<nat>)
      requires forall id: nat :: id in open <==> OpenAccruals(b.facts, id) != []
      modifies `requirements, `candidates, `blockers
      ensures Needed() == Add(old(Needed()), contract, FreshOf(b, end, contract))
    {
      hide OpenAccruals, ItemBases, ContractBases, Complete, RowsFor, Recognitions, Suppressed;
      var recognitions := Recognitions(b, contract, end);
      if recognitions == [] {
        return;
      }
      var invoiced := HasConfirmedInvoice(b, contract, end);
      if invoiced {
        return;
      }
      var recognition := Earliest(recognitions);
      var emitted := RequireItems(b, contract, recognition, open);
      if emitted {
        return;
      }
      var complete, itemBases, contractBases := Complete(b, contract), ItemBases(b, contract),
        ContractBases(b, contract);
      var guarded := exists i :: i in b.listing && i.contract == contract && i.id in open;
      if guarded && itemBases == [] && contractBases == [] {
        return;
      }
      if itemBases == [] && contractBases == [] {
        blockers := blockers + [MissingBasis(contract)];
        return;
      }
      if complete == [] && contractBases != [] {
        var basis := Oldest(contractBases);
        candidates := candidates + [Candidate(contract, basis.cost, recognition.id, basis.id)];
      } else if complete != [] {
        blockers := blockers + [MissingBasis(contract)];
      }
    }

    /** Every contract in turn. */
    method RequireAll(b: Books, end: int)
      requires requirements == [] && candidates == []
      modifies `requirements, `candidates, `blockers
      ensures var n := NeedsOf(b, end, b.contracts);
              requirements == n.requirements && candidates == n.candidates && blockers == old(blockers) + n.blockers
    {
      hide FreshOf, NeedsOf, OpenAccruals, IsOpen;
      ghost var before := blockers;
      NeedsNone(b, end);
      var byAccrual := IndexReversals(b.facts.reversals);
      var open := set a | a in b.facts.accruals && IsOpen(a, b.facts.reversals) :: a.item;
      forall id: nat
        ensures id in open <==> OpenAccruals(b.facts, id) != []
      {
        OpenIdsAre(b.facts, byAccrual, id);
      }
      for i := 0 to |b.contracts|
        invariant var n := NeedsOf(b, end, b.contracts[..i]);
                  requirements == n.requirements && candidates == n.candidates && blockers == before + n.blockers
      {
        NeedsNext(b, end, i);
        RequireContract(b, end, b.contracts[i], open);
      }
      assert b.contracts[..|b.contracts|] == b.contracts;
    }

    /** The whole preview: reversals first, then what the period still needs. */
    method Compute(b: Books, end: int) returns (ok: bool)
      requires DistinctIds(b.facts.allocations) && View() == Reversing([], [], []) && requirements == []
        && candidates == []
      modifies this
      ensures ok == !PreviewDivides(b.facts, end)
      ensures ok ==> var v, n := Preview(b.facts, end), NeedsOf(b, end, b.contracts);
                     View() == v.(blockers := v.blockers + n.blockers) && requirements == n.requirements
                       && candidates == n.candidates
    {
      hide PreviewDivides, Preview, NeedsOf, DistinctIds;
      ok := ReverseAll(b.facts, end);
      if ok {
        RequireAll(b, end);
      }
    }
  }

  lemma OpenIdsAre(f: Facts, byAccrual: map<nat, seq<Reversal>>, id: nat)
    requires ByAccrual(byAccrual, f.reversals)
    ensures (exists a :: a in f.accruals && IsOpen(a, f.reversals) && a.item == id) <==> OpenAccruals(f, id) != []
  {
    HasOpenAccruals(f, id);
  }

  lemma RowsNone(b: Books, contract: nat, recognition: CostFact)
    ensures RowsFor(b, contract, recognition, []) == []
  {
  }

  lemma RowsNext(b: Books, contract: nat, recognition: CostFact, items: seq<ContractItem>, i: nat)
    requires i < |items|
    ensures var item := items[i];
            var basis := LastFor(ItemBases(b, contract), item.id);
            var rows := RowsFor(b, contract, recognition, items[..i]);
            RowsFor(b, contract, recognition, items[..i + 1])
              == if OpenAccruals(b.facts, item.id) != [] || basis.None? then rows
                   else rows + [Row(b, contract, recognition, basis.value, item)]
  {
    hide OpenAccruals, ItemBases, LastFor;
    assert items[..i + 1][..i] == items[..i];
  }

  lemma NeedsNone(b: Books, end: int)
    ensures NeedsOf(b, end, []) == Needs([], [], [])
  {
  }

  lemma NeedsNext(b: Books, end: int, i: nat)
    requires i < |b.contracts|
    ensures NeedsOf(b, end, b.contracts[..i + 1])
         == Add(NeedsOf(b, end, b.contracts[..i]), b.contracts[i], FreshOf(b, end, b.contracts[i]))
  {
    hide FreshOf, Add;
    assert b.contracts[..i + 1][..i] == b.contracts[..i];
  }

  lemma PreviewNone(f: Facts, end: int)
    ensures EachOpen(f, []) && PreviewOf(f, end, []) == Reversing([], [], []) && !Divides(f, end, [])
  {
  }

  lemma PreviewNext(f: Facts, end: int, order: seq<nat>, i: nat)
    requires i < |order| && EachOpen(f, order) && EachOpen(f, order[..i])
    ensures OpenAccruals(f, order[i]) != [] && EachOpen(f, order[..i + 1])
    ensures PreviewOf(f, end, order[..i + 1]) == Emit(PreviewOf(f, end, order[..i]), OutcomeOf(f, end, order[i]))
    ensures Divides(f, end, order[..i + 1])
      == (Divides(f, end, order[..i]) || OutcomeOf(f, end, order[i]).DivisionByZero?)
    ensures OutcomeOf(f, end, order[i]).DivisionByZero? ==> Divides(f, end, order)
  {
    hide OpenAccruals, OutcomeOf;
    assert order[i] in order;
    assert order[..i + 1] == order[..i] + [order[i]];
    assert order[..i + 1][..i] == order[..i];
  }

  function InvoicedAmong(f: Facts, end: int, s: seq<ItemAllocation>): seq<ItemAllocation> {
    Keep(s, (a: ItemAllocation) => Invoiced(f, a, end))
  }

  lemma InvoicedNone(f: Facts, end: int)
    ensures InvoicedAmong(f, end, []) == []
  {
  }

  lemma InvoicedNext(f: Facts, end: int, s: seq<ItemAllocation>, i: nat)
    requires i < |s|
    ensures InvoicedAmong(f, end, s[..i + 1]) == if Invoiced(f, s[i], end) then InvoicedAmong(f, end, s[..i]) + [s[i]]
      else InvoicedAmong(f, end, s[..i])
  {
    hide Invoiced;
    KeepNext(s, i, (a: ItemAllocation) => Invoiced(f, a, end));
  }

  lemma ByItemGives(index: map<nat, seq<ItemAllocation>>, allocations: seq<ItemAllocation>, item: nat)
    requires ByItem(index, allocations)
    ensures Listed(index, item) == AllocationsOf(allocations, item)
  {
  }

  lemma QualifyingIs(f: Facts, end: int, item: nat)
    ensures Qualifying(f, end, item) == InvoicedAmong(f, end, AllocationsOf(f.allocations, item))
  {
    hide Invoiced;
    QualifyingInTwoSteps(f, end, item, f.allocations);
  }

  lemma PreviewUnfolds(f: Facts, end: int)
    ensures EachOpen(f, OpenItems(f, f.accruals))
    ensures Preview(f, end) == PreviewOf(f, end, OpenItems(f, f.accruals))
    ensures PreviewDivides(f, end) == Divides(f, end, OpenItems(f, f.accruals))
  {
    AllOpen(f);
  }

  lemma {:induction false} QualifyingInTwoSteps(f: Facts, end: int, item: nat, allocations: seq<ItemAllocation>)
    ensures Keep(AllocationsOf(allocations, item), (a: ItemAllocation) => Invoiced(f, a, end))
         == Keep(allocations, (a: ItemAllocation) => a.item == item && Invoiced(f, a, end))
  {
    hide Invoiced;
    if allocations == [] {
    } else {
      var front, last := allocations[..|allocations| - 1], allocations[|allocations| - 1];
      QualifyingInTwoSteps(f, end, item, front);
      var own := AllocationsOf(front, item);
      if last.item == item {
        assert AllocationsOf(allocations, item)[..|own|] == own;
      } else {
        assert AllocationsOf(allocations, item) == own;
      }
    }
  }

  lemma QualifyingDistinct(f: Facts, end: int, item: nat)
    requires DistinctIds(f.allocations)
    ensures DistinctIds(Qualifying(f, end, item))
  {
    KeepDistinctIds(f.allocations, (a: ItemAllocation) => a.item == item && Invoiced(f, a, end));
  }

  lemma MatchRequiredNext(contract: nat, item: nat, open: seq<Accrual>, i: nat)
    requires i < |open|
    ensures MatchRequired(contract, item, open[..i + 1])
      == MatchRequired(contract, item, open[..i]) + [ItemMatchRequired(contract, item, open[i].id)]
  {
  }

  lemma SoleMember(reversals: seq<Reversal>, qualifying: seq<ItemAllocation>)
    requires |WithUnclaimed(reversals, qualifying)| == 1
    ensures WithUnclaimed(reversals, qualifying)[0] in qualifying
  {
    assert WithUnclaimed(reversals, qualifying)[0] in WithUnclaimed(reversals, qualifying);
  }

  method TotalAllocated(qualifying: seq<ItemAllocation>) returns (total: real)
    ensures total == Total(qualifying, (a: ItemAllocation) => a.quantity)
  {
    total := 0.0;
    for i := 0 to |qualifying|
      invariant total == Total(qualifying[..i], (a: ItemAllocation) => a.quantity)
    {
      assert qualifying[..i + 1][..i] == qualifying[..i];
      total := total + qualifying[i].quantity;
    }
    assert qualifying[..|qualifying|] == qualifying;
  }

  method UnclaimedOf(reversals: seq<Reversal>, qualifying: seq<ItemAllocation>, consumed: map<nat, real>)
    returns (unclaimed: seq<ItemAllocation>)
    requires forall a :: a in qualifying ==> Amount(consumed, a.id) == Consumed(reversals, a.id)
    ensures unclaimed == WithUnclaimed(reversals, qualifying)
  {
    unclaimed := [];
    for i := 0 to |qualifying|
      invariant unclaimed == WithUnclaimed(reversals, qualifying[..i])
    {
      hide Consumed;
      KeepNext(qualifying, i, (a: ItemAllocation) => Unclaimed(reversals, a) > 0.0);
      if qualifying[i].quantity - Amount(consumed, qualifying[i].id) > 0.0 {
        unclaimed := unclaimed + [qualifying[i]];
      }
    }
    assert qualifying[..|qualifying|] == qualifying;
  }
}
