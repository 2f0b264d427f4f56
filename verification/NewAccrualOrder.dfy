/**
 What the new-accrual half of the preview makes of the order in which facts are listed.  Of several bases of an item
 the one listed last counts, of several oldest bases and of several earliest cost facts the one listed first; all else
 forgets the listing.
 */
module NewAccrualOrder {
  import opened Options
  import opened Sequences
  import opened PeriodCloseRules
  import O = PeriodCloseOrder
  import opened NewAccrualRules
  import opened NewAccrualTheorems

  /** The same facts in any order; contracts and items are visited in the order of their own keys. */
  ghost predicate SameBooks(b: Books, c: Books) {
    && O.Relisted(b.facts, c.facts)
    && multiset(b.costs) == multiset(c.costs) && multiset(b.bases) == multiset(c.bases)
    && b.contracts == c.contracts && b.listing == c.listing
  }

  // ---- What forgets the listing ----

  lemma RecognitionsForget(b: Books, c: Books, contract: nat, end: int)
    requires SameBooks(b, c)
    ensures multiset(Recognitions(b, contract, end)) == multiset(Recognitions(c, contract, end))
    ensures forall x :: x in Recognitions(b, contract, end) <==> x in Recognitions(c, contract, end)
  {
    KeepForgetsListing(b.costs, c.costs, (x: CostFact) => x.contract == contract && x.date <= end);
    SameMembers(Recognitions(b, contract, end), Recognitions(c, contract, end));
  }

  lemma BasesForget(b: Books, c: Books, contract: nat)
    requires SameBooks(b, c)
    ensures forall x :: x in ItemBases(b, contract) <==> x in ItemBases(c, contract)
    ensures forall x :: x in ContractBases(b, contract) <==> x in ContractBases(c, contract)
    ensures ItemBases(b, contract) == [] <==> ItemBases(c, contract) == []
    ensures ContractBases(b, contract) == [] <==> ContractBases(c, contract) == []
  {
    KeepForgetsListing(b.bases, c.bases, (x: BasisFact) => x.contract == contract && x.perItem);
    KeepForgetsListing(b.bases, c.bases, (x: BasisFact) => x.contract == contract && !x.perItem);
    SameMembers(ItemBases(b, contract), ItemBases(c, contract));
    SameMembers(ContractBases(b, contract), ContractBases(c, contract));
    SameLength(ItemBases(b, contract), ItemBases(c, contract));
    SameLength(ContractBases(b, contract), ContractBases(c, contract));
  }

  lemma OpenForgets(b: Books, c: Books, item: nat)
    requires SameBooks(b, c)
    ensures OpenAccruals(b.facts, item) == [] <==> OpenAccruals(c.facts, item) == []
  {
    hide OpenAccruals;
    O.OpenForgets(b.facts, c.facts, item);
    SameLength(OpenAccruals(b.facts, item), OpenAccruals(c.facts, item));
  }

  lemma SuppressionForgets(b: Books, c: Books, contract: nat, end: int)
    requires SameBooks(b, c)
    ensures Suppressed(b, contract, end) <==> Suppressed(c, contract, end)
  {
    SameMembers(b.facts.invoiceAllocations, c.facts.invoiceAllocations);
  }

  lemma OpenItemForgets(b: Books, c: Books, contract: nat)
    requires SameBooks(b, c)
    ensures HasOpenItem(b, contract) <==> HasOpenItem(c, contract)
  {
    hide OpenAccruals;
    forall i | i in b.listing
      ensures OpenAccruals(b.facts, i.id) == [] <==> OpenAccruals(c.facts, i.id) == []
    {
      OpenForgets(b, c, i.id);
    }
  }

  /** The item has a basis and needs an accrual. */
  ghost predicate Yields(b: Books, contract: nat, i: ContractItem) {
    OpenAccruals(b.facts, i.id) == [] && exists x :: x in ItemBases(b, contract) && x.item == Some(i.id)
  }

  lemma RowsNeedSomeItem(b: Books, contract: nat, recognition: CostFact, items: seq<ContractItem>)
    ensures RowsFor(b, contract, recognition, items) != [] <==> exists i :: i in items && Yields(b, contract, i)
  {
    hide RowsFor, ItemBases, OpenAccruals;
    var rows := RowsFor(b, contract, recognition, items);
    if rows != [] {
      assert rows[0] in rows;
      RowOrigin(b, contract, recognition, items, rows[0]);
    }
  }

  /** The kind of a contract's outcome does not depend on the listing. */
  lemma KindForgets(b: Books, c: Books, end: int, contract: nat)
    requires SameBooks(b, c)
    ensures var o, p := FreshOf(b, end, contract), FreshOf(c, end, contract);
            && (o.Quiet? <==> p.Quiet?) && (o.Required? <==> p.Required?) && (o.Proposed? <==> p.Proposed?)
            && (o.NoBasis? <==> p.NoBasis?)
            && (o.Required? || o.Proposed? ==>
                  Recognitions(b, contract, end) != [] && Recognitions(c, contract, end) != [])
  {
    hide RowsFor, ItemBases, ContractBases, OpenAccruals, Suppressed, HasOpenItem, Recognitions, SameBooks;
    RecognitionsForget(b, c, contract, end);
    SameLength(Recognitions(b, contract, end), Recognitions(c, contract, end));
    BasesForget(b, c, contract);
    SuppressionForgets(b, c, contract, end);
    OpenItemForgets(b, c, contract);
    CompleteSame(b, c, contract);
    if Recognitions(b, contract, end) != [] {
      var items := Complete(b, contract);
      RowsNeedSomeItem(b, contract, Earliest(Recognitions(b, contract, end)), items);
      RowsNeedSomeItem(c, contract, Earliest(Recognitions(c, contract, end)), items);
      forall i | i in items
        ensures Yields(b, contract, i) <==> Yields(c, contract, i)
      {
        OpenForgets(b, c, i.id);
      }
    }
  }

  lemma CompleteSame(b: Books, c: Books, contract: nat)
    requires SameBooks(b, c)
    ensures Complete(b, contract) == Complete(c, contract)
  {
  }

  // ---- What does not: ties ----

  predicate IsEarliest(facts: seq<CostFact>, x: CostFact) { x in facts && forall y :: y in facts ==> x.date <= y.date }

  predicate IsOldest(bases: seq<BasisFact>, x: BasisFact) {
    x in bases && forall y :: y in bases ==> x.created <= y.created
  }

  ghost predicate EarliestAgree(b: Books, end: int, contract: nat) {
    var facts := Recognitions(b, contract, end);
    forall x, y :: IsEarliest(facts, x) && IsEarliest(facts, y) ==> x.id == y.id
  }

  predicate SameRow(x: BasisFact, y: BasisFact) { x.id == y.id && x.quantity == y.quantity && x.cost == y.cost }

  predicate BasisOf(b: Books, contract: nat, i: ContractItem, x: BasisFact) {
    x in ItemBases(b, contract) && x.item == Some(i.id)
  }

  /** No item that needs an accrual has two bases that would make different rows. */
  ghost predicate ItemBasesAgree(b: Books, contract: nat) {
    forall i, x, y ::
      && i in Complete(b, contract) && OpenAccruals(b.facts, i.id) == []
      && BasisOf(b, contract, i, x) && BasisOf(b, contract, i, y)
      ==> SameRow(x, y)
  }

  ghost predicate OldestAgree(b: Books, contract: nat) {
    var bases := ContractBases(b, contract);
    forall x, y :: IsOldest(bases, x) && IsOldest(bases, y) ==> x.id == y.id && x.cost == y.cost
  }

  /** No tie that the outcome of this contract turns on. */
  ghost predicate Unambiguous(b: Books, end: int, contract: nat) {
    var o := FreshOf(b, end, contract);
    && (o.Required? || o.Proposed? ==> EarliestAgree(b, end, contract))
    && (o.Required? ==> ItemBasesAgree(b, contract))
    && (o.Proposed? ==> OldestAgree(b, contract))
  }

  // ---- Without a tie the listing does not matter ----

  lemma EarliestSame(b: Books, c: Books, end: int, contract: nat)
    requires SameBooks(b, c) && EarliestAgree(b, end, contract)
    requires Recognitions(b, contract, end) != [] && Recognitions(c, contract, end) != []
    ensures Earliest(Recognitions(b, contract, end)).id == Earliest(Recognitions(c, contract, end)).id
  {
    hide Recognitions, SameBooks;
    RecognitionsForget(b, c, contract, end);
    var facts := Recognitions(b, contract, end);
    assert IsEarliest(facts, Earliest(facts)) && IsEarliest(facts, Earliest(Recognitions(c, contract, end)));
  }

  /** Of an item that needs an accrual, either listing names a basis that makes the same row. */
  lemma LastSame(b: Books, c: Books, contract: nat, x: CostFact, y: CostFact, i: ContractItem)
    requires SameBooks(b, c) && ItemBasesAgree(b, contract) && x.id == y.id
    requires i in Complete(b, contract) && OpenAccruals(b.facts, i.id) == []
    ensures var v, w := LastFor(ItemBases(b, contract), i.id), LastFor(ItemBases(c, contract), i.id);
            && (v.None? <==> w.None?)
            && (v.Some? ==> Row(b, contract, x, v.value, i) == Row(c, contract, y, w.value, i))
  {
    hide ItemBases, OpenAccruals, Complete, SameBooks;
    BasesForget(b, c, contract);
    var v, w := LastFor(ItemBases(b, contract), i.id), LastFor(ItemBases(c, contract), i.id);
    if v.Some? && w.Some? {
      assert BasisOf(b, contract, i, v.value) && BasisOf(b, contract, i, w.value);
    }
  }

  lemma {:induction false} RowsSame(
      b: Books, c: Books, contract: nat, x: CostFact, y: CostFact, items: seq<ContractItem>)
    requires SameBooks(b, c) && ItemBasesAgree(b, contract) && x.id == y.id
    requires forall i :: i in items ==> i in Complete(b, contract)
    ensures RowsFor(b, contract, x, items) == RowsFor(c, contract, y, items)
  {
    hide ItemBases, OpenAccruals, Complete, SameBooks, LastFor, ItemBasesAgree, Row;
    if items == [] {
    } else {
      var front, last := items[..|items| - 1], items[|items| - 1];
      assert last in items && forall i :: i in front ==> i in items;
      RowsSame(b, c, contract, x, y, front);
      OpenForgets(b, c, last.id);
      if OpenAccruals(b.facts, last.id) == [] {
        LastSame(b, c, contract, x, y, last);
      }
    }
  }

  lemma OldestSame(b: Books, c: Books, contract: nat)
    requires SameBooks(b, c) && OldestAgree(b, contract)
    requires ContractBases(b, contract) != [] && ContractBases(c, contract) != []
    ensures var x, y := Oldest(ContractBases(b, contract)), Oldest(ContractBases(c, contract));
            x.id == y.id && x.cost == y.cost
  {
    hide ContractBases, SameBooks;
    BasesForget(b, c, contract);
    var bases := ContractBases(b, contract);
    assert IsOldest(bases, Oldest(bases)) && IsOldest(bases, Oldest(ContractBases(c, contract)));
  }

  lemma FreshForgets(b: Books, c: Books, end: int, contract: nat)
    requires SameBooks(b, c) && Unambiguous(b, end, contract)
    ensures FreshOf(c, end, contract) == FreshOf(b, end, contract)
  {
    hide RowsFor, ItemBases, ContractBases, OpenAccruals, Suppressed, HasOpenItem, Recognitions, SameBooks,
      EarliestAgree,
      ItemBasesAgree, OldestAgree, Complete;
    KindForgets(b, c, end, contract);
    CompleteSame(b, c, contract);
    var o := FreshOf(b, end, contract);
    if o.Required? {
      EarliestSame(b, c, end, contract);
      RowsSame(b, c, contract, Earliest(Recognitions(b, contract, end)), Earliest(Recognitions(c, contract, end)),
               Complete(b, contract));
    } else if o.Proposed? {
      EarliestSame(b, c, end, contract);
      OldestSame(b, c, contract);
    }
  }

  // ---- With a tie it does ----

  /** Some relisting puts a given element first; another, last. */
  lemma Fronted<T>(s: seq<T>, x: T) returns (rest: seq<T>)
    requires x in s
    ensures multiset([x] + rest) == multiset(s) && multiset(rest + [x]) == multiset(s)
  {
    var i :| 0 <= i < |s| && s[i] == x;
    rest := Without(s, i);
    WithoutCounts(s, i);
  }

  lemma {:induction false} EarliestIsFirst(x: CostFact, rest: seq<CostFact>)
    requires forall y :: y in rest ==> x.date <= y.date
    ensures Earliest([x] + rest) == x
  {
    if rest == [] {
    } else {
      var n := |rest| - 1;
      assert ([x] + rest)[..|rest|] == [x] + rest[..n];
      EarliestIsFirst(x, rest[..n]);
      assert rest[n] in rest;
    }
  }

  lemma {:induction false} OldestIsFirst(x: BasisFact, rest: seq<BasisFact>)
    requires forall y :: y in rest ==> x.created <= y.created
    ensures Oldest([x] + rest) == x
  {
    if rest == [] {
    } else {
      var n := |rest| - 1;
      assert ([x] + rest)[..|rest|] == [x] + rest[..n];
      OldestIsFirst(x, rest[..n]);
      assert rest[n] in rest;
    }
  }

  lemma KeepFirst<T(!new)>(x: T, rest: seq<T>, f: T -> bool)
    requires f(x)
    ensures Keep([x] + rest, f) == [x] + Keep(rest, f)
  {
    KeepConcat([x], rest, f);
    KeepPush([], x, f);
    assert [] + [x] == [x];
  }

  /** Listed first, an earliest cost fact is the one chosen. */
  lemma CostFirst(b: Books, end: int, contract: nat, x: CostFact) returns (c: Books)
    requires IsEarliest(Recognitions(b, contract, end), x)
    ensures SameBooks(b, c) && Recognitions(c, contract, end) != []
    ensures Earliest(Recognitions(c, contract, end)) == x
  {
    var rest := Fronted(b.costs, x);
    c := b.(costs := [x] + rest);
    var due := (y: CostFact) => y.contract == contract && y.date <= end;
    KeepFirst(x, rest, due);
    forall y | y in Keep(rest, due)
      ensures x.date <= y.date
    {
      assert y in [x] + rest;
      assert y in multiset([x] + rest) && y in b.costs;
    }
    EarliestIsFirst(x, Keep(rest, due));
  }

  lemma BasisFirst(b: Books, contract: nat, x: BasisFact) returns (c: Books)
    requires IsOldest(ContractBases(b, contract), x)
    ensures SameBooks(b, c) && ContractBases(c, contract) != []
    ensures Oldest(ContractBases(c, contract)) == x
  {
    var rest := Fronted(b.bases, x);
    c := b.(bases := [x] + rest);
    var whole := (y: BasisFact) => y.contract == contract && !y.perItem;
    KeepFirst(x, rest, whole);
    forall y | y in Keep(rest, whole)
      ensures x.created <= y.created
    {
      assert y in [x] + rest;
      assert y in multiset([x] + rest) && y in b.bases;
    }
    OldestIsFirst(x, Keep(rest, whole));
  }

  lemma BasisLast(b: Books, contract: nat, i: ContractItem, x: BasisFact) returns (c: Books)
    requires BasisOf(b, contract, i, x)
    ensures SameBooks(b, c) && LastFor(ItemBases(c, contract), i.id) == Some(x)
  {
    var rest := Fronted(b.bases, x);
    c := b.(bases := rest + [x]);
    KeepPush(rest, x, (y: BasisFact) => y.contract == contract && y.perItem);
  }

  /** c says something of the contract that d does not say. */
  ghost predicate SaysMore(c: Books, d: Books, end: int, contract: nat) {
    || (exists r :: Emits(c, end, contract, r) && !Emits(d, end, contract, r))
    || (exists x :: FreshOf(c, end, contract) == Proposed(x) && FreshOf(d, end, contract) != Proposed(x))
  }

  lemma RecognisedBy(b: Books, end: int, contract: nat)
    requires FreshOf(b, end, contract).Required? || FreshOf(b, end, contract).Proposed?
    ensures Recognitions(b, contract, end) != []
    ensures forall r :: Emits(b, end, contract, r) ==> r.recognition == Earliest(Recognitions(b, contract, end)).id
    ensures forall x :: FreshOf(b, end, contract) == Proposed(x) ==>
              x.recognition == Earliest(Recognitions(b, contract, end)).id
  {
    hide RowsFor, ItemBases, OpenAccruals, Suppressed, HasOpenItem;
    forall r | Emits(b, end, contract, r)
      ensures r.recognition == Earliest(Recognitions(b, contract, end)).id
    {
      EmittedRow(b, end, contract, r);
    }
  }

  lemma RequiredEmits(b: Books, end: int, contract: nat) returns (r: AccrualRequired)
    requires FreshOf(b, end, contract).Required?
    ensures Emits(b, end, contract, r)
  {
    hide RowsFor, Recognitions, Suppressed;
    r := FreshOf(b, end, contract).rows[0];
  }

  lemma EarliestTieShows(b: Books, end: int, contract: nat, x: CostFact, y: CostFact) returns (c: Books, d: Books)
    requires FreshOf(b, end, contract).Required? || FreshOf(b, end, contract).Proposed?
    requires IsEarliest(Recognitions(b, contract, end), x) && IsEarliest(Recognitions(b, contract, end), y)
    requires x.id != y.id
    ensures SameBooks(b, c) && SameBooks(b, d) && SaysMore(c, d, end, contract)
  {
    hide FreshOf, SameBooks, Recognitions, Emits;
    c := CostFirst(b, end, contract, x);
    d := CostFirst(b, end, contract, y);
    KindForgets(b, c, end, contract);
    KindForgets(b, d, end, contract);
    RecognisedBy(c, end, contract);
    RecognisedBy(d, end, contract);
    if FreshOf(b, end, contract).Required? {
      var r := RequiredEmits(c, end, contract);
      assert !Emits(d, end, contract, r);
    } else {
      assert FreshOf(c, end, contract) == Proposed(FreshOf(c, end, contract).candidate);
    }
  }

  /** What an emitted row says of an item is what the basis listed last for it says. */
  lemma EmittedFromLast(b: Books, end: int, contract: nat, r: AccrualRequired)
    requires Emits(b, end, contract, r)
    ensures var x := LastFor(ItemBases(b, contract), r.item);
            x.Some? && r.basis == x.value.id && r.quantity == x.value.quantity && r.cost == x.value.cost
  {
    hide RowsFor, Recognitions, OpenAccruals, Suppressed, LastFor, Complete, ContractBases;
    RowOrigin(b, contract, Earliest(Recognitions(b, contract, end)), Complete(b, contract), r);
  }

  lemma LastIsEmitted(b: Books, end: int, contract: nat, i: ContractItem, x: BasisFact) returns (r: AccrualRequired)
    requires FreshOf(b, end, contract).Required? && i in Complete(b, contract) && OpenAccruals(b.facts, i.id) == []
    requires LastFor(ItemBases(b, contract), i.id) == Some(x)
    ensures Emits(b, end, contract, r)
    ensures r.item == i.id && r.basis == x.id && r.quantity == x.quantity && r.cost == x.cost
  {
    hide RowsFor, Recognitions, OpenAccruals, Suppressed, LastFor, Complete, ContractBases, ItemBases;
    r := Row(b, contract, Earliest(Recognitions(b, contract, end)), x, i);
  }

  lemma BasisTieShows(b: Books, end: int, contract: nat, i: ContractItem, x: BasisFact, y: BasisFact)
    returns (c: Books, d: Books)
    requires FreshOf(b, end, contract).Required? && i in Complete(b, contract) && OpenAccruals(b.facts, i.id) == []
    requires BasisOf(b, contract, i, x) && BasisOf(b, contract, i, y) && !SameRow(x, y)
    ensures SameBooks(b, c) && SameBooks(b, d) && SaysMore(c, d, end, contract)
  {
    hide FreshOf, SameBooks, Complete, ItemBases, LastFor, OpenAccruals, Emits;
    c := BasisLast(b, contract, i, x);
    d := BasisLast(b, contract, i, y);
    KindForgets(b, c, end, contract);
    CompleteSame(b, c, contract);
    OpenForgets(b, c, i.id);
    var r := LastIsEmitted(c, end, contract, i, x);
    if Emits(d, end, contract, r) {
      EmittedFromLast(d, end, contract, r);
    }
  }

  lemma CandidateFromOldest(b: Books, end: int, contract: nat)
    requires FreshOf(b, end, contract).Proposed?
    ensures ContractBases(b, contract) != []
    ensures var x := FreshOf(b, end, contract).candidate; var y := Oldest(ContractBases(b, contract));
            x.basis == y.id && x.cost == y.cost
  {
    hide RowsFor, Recognitions, Suppressed, ItemBases, HasOpenItem, Complete;
  }

  lemma OldestTieShows(b: Books, end: int, contract: nat, x: BasisFact, y: BasisFact) returns (c: Books, d: Books)
    requires FreshOf(b, end, contract).Proposed?
    requires IsOldest(ContractBases(b, contract), x) && IsOldest(ContractBases(b, contract), y)
    requires x.id != y.id || x.cost != y.cost
    ensures SameBooks(b, c) && SameBooks(b, d) && SaysMore(c, d, end, contract)
  {
    hide FreshOf, SameBooks, ContractBases, Emits;
    c := BasisFirst(b, contract, x);
    d := BasisFirst(b, contract, y);
    KindForgets(b, c, end, contract);
    KindForgets(b, d, end, contract);
    CandidateFromOldest(c, end, contract);
    CandidateFromOldest(d, end, contract);
    assert FreshOf(c, end, contract) == Proposed(FreshOf(c, end, contract).candidate);
  }

  lemma TieShows(b: Books, end: int, contract: nat) returns (c: Books, d: Books)
    requires !Unambiguous(b, end, contract)
    ensures SameBooks(b, c) && SameBooks(b, d) && SaysMore(c, d, end, contract)
  {
    hide FreshOf, SameBooks, SaysMore, Recognitions, ContractBases, Complete, ItemBases, OpenAccruals, IsEarliest,
      IsOldest;
    var o := FreshOf(b, end, contract);
    if (o.Required? || o.Proposed?) && !EarliestAgree(b, end, contract) {
      var facts := Recognitions(b, contract, end);
      var x, y :| IsEarliest(facts, x) && IsEarliest(facts, y) && x.id != y.id;
      c, d := EarliestTieShows(b, end, contract, x, y);
    } else if o.Required? {
      var i, x, y :|
        i in Complete(b, contract) && OpenAccruals(b.facts, i.id) == []
        && BasisOf(b, contract, i, x) && BasisOf(b, contract, i, y) && !SameRow(x, y);
      c, d := BasisTieShows(b, end, contract, i, x, y);
    } else {
      var bases := ContractBases(b, contract);
      var x, y :| IsOldest(bases, x) && IsOldest(bases, y) && (x.id != y.id || x.cost != y.cost);
      c, d := OldestTieShows(b, end, contract, x, y);
    }
  }

  /** The outcome of a contract forgets the listing exactly when no tie matters to it. */
  lemma OutcomeForgetsExactly(b: Books, end: int, contract: nat)
    ensures (forall c :: SameBooks(b, c) ==> FreshOf(c, end, contract) == FreshOf(b, end, contract))
       <==> Unambiguous(b, end, contract)
  {
    hide FreshOf, SameBooks, Unambiguous;
    if Unambiguous(b, end, contract) {
      forall c | SameBooks(b, c)
        ensures FreshOf(c, end, contract) == FreshOf(b, end, contract)
      {
        FreshForgets(b, c, end, contract);
      }
    } else {
      var c, d := TieShows(b, end, contract);
      assert FreshOf(c, end, contract) != FreshOf(d, end, contract);
    }
  }

  // ---- All contracts ----

  lemma {:induction false} NeedsSame(b: Books, c: Books, end: int, contracts: seq<nat>)
    requires forall k :: k in contracts ==> FreshOf(c, end, k) == FreshOf(b, end, k)
    ensures NeedsOf(c, end, contracts) == NeedsOf(b, end, contracts)
  {
    hide FreshOf;
    if contracts == [] {
    } else {
      assert contracts[|contracts| - 1] in contracts;
      NeedsSame(b, c, end, contracts[..|contracts| - 1]);
    }
  }

  lemma MoreSaidMoreNeeded(c: Books, d: Books, end: int, contracts: seq<nat>, contract: nat)
    requires contract in contracts && SaysMore(c, d, end, contract)
    ensures NeedsOf(c, end, contracts) != NeedsOf(d, end, contracts)
  {
    hide FreshOf, NeedsOf, Emits;
    NeedsMembers(c, end, contracts);
    NeedsMembers(d, end, contracts);
    if r :| Emits(c, end, contract, r) && !Emits(d, end, contract, r) {
      if k :| k in contracts && Emits(d, end, k, r) {
        EmittedNames(c, end, contract, r);
        EmittedNames(d, end, k, r);
      }
      assert r in NeedsOf(c, end, contracts).requirements && r !in NeedsOf(d, end, contracts).requirements;
    } else {
      var x :| FreshOf(c, end, contract) == Proposed(x) && FreshOf(d, end, contract) != Proposed(x);
      ProposesItself(c, end, contract);
      assert x in NeedsOf(c, end, contracts).candidates && x !in NeedsOf(d, end, contracts).candidates;
    }
  }

  lemma EmittedNames(b: Books, end: int, contract: nat, r: AccrualRequired)
    requires Emits(b, end, contract, r)
    ensures r.contract == contract
  {
    hide Recognitions, OpenAccruals, Suppressed, ItemBases, ContractBases;
  }

  /** The needs of a period are the same however costs, bases, accruals, reversals and allocations are listed, exactly
      when no contract has a tie that matters to its outcome. */
  lemma NeedsForgetExactly(b: Books, end: int)
    ensures (forall c :: SameBooks(b, c) ==> NeedsOf(c, end, b.contracts) == NeedsOf(b, end, b.contracts))
       <==> forall k :: k in b.contracts ==> Unambiguous(b, end, k)
  {
    hide FreshOf, NeedsOf, SameBooks, Unambiguous, SaysMore;
    if forall k :: k in b.contracts ==> Unambiguous(b, end, k) {
      forall c | SameBooks(b, c)
        ensures NeedsOf(c, end, b.contracts) == NeedsOf(b, end, b.contracts)
      {
        forall k | k in b.contracts
          ensures FreshOf(c, end, k) == FreshOf(b, end, k)
        {
          FreshForgets(b, c, end, k);
        }
        NeedsSame(b, c, end, b.contracts);
      }
    } else {
      var k :| k in b.contracts && !Unambiguous(b, end, k);
      var c, d := TieShows(b, end, k);
      MoreSaidMoreNeeded(c, d, end, b.contracts, k);
    }
  }

  // ---- Two bases of one item ----

  const ITEM := ContractItem(1, 1, "A", Some(1.0))
  const CHEAP := BasisFact(1, 1, true, Some(1), Some(1.0), 10.0, 0)
  const DEAR := BasisFact(2, 1, true, Some(1), Some(1.0), 20.0, 0)

  function Listed(bases: seq<BasisFact>): Books {
    Books(Facts(map[1 := ITEM], [], [], [], map[], map[], []), [1], [ITEM], [CostFact(1, 1, 0)], bases)
  }

  /** The cost required is that of whichever basis is listed last. */
  lemma LastBasisCounts()
    ensures SameBooks(Listed([CHEAP, DEAR]), Listed([DEAR, CHEAP]))
    ensures NeedsOf(Listed([CHEAP, DEAR]), 0, [1]).requirements == [AccrualRequired(1, 1, Some(1.0), 20.0, 1, 2)]
    ensures NeedsOf(Listed([DEAR, CHEAP]), 0, [1]).requirements == [AccrualRequired(1, 1, Some(1.0), 10.0, 1, 1)]
  {
    hide NeedsOf;
    ListedRequires(CHEAP, DEAR);
    ListedRequires(DEAR, CHEAP);
  }

  /** The selections of a book with one contract, all of it due. */
  lemma AllSelected(b: Books)
    requires forall i :: i in b.listing ==> i.contract == 1 && i.quantity.Some?
    requires forall x :: x in b.bases ==> x.contract == 1 && x.perItem
    requires forall x :: x in b.costs ==> x.contract == 1 && x.date <= 0
    ensures Complete(b, 1) == b.listing && ItemBases(b, 1) == b.bases && Recognitions(b, 1, 0) == b.costs
  {
    KeepAll(b.listing, (i: ContractItem) => i.contract == 1 && i.quantity.Some?);
    KeepAll(b.bases, (x: BasisFact) => x.contract == 1 && x.perItem);
    KeepAll(b.costs, (x: CostFact) => x.contract == 1 && x.date <= 0);
  }

  lemma ListedRequires(x: BasisFact, y: BasisFact)
    requires x in {CHEAP, DEAR} && y in {CHEAP, DEAR}
    ensures NeedsOf(Listed([x, y]), 0, [1]).requirements == [AccrualRequired(1, 1, Some(1.0), y.cost, 1, y.id)]
  {
    hide OpenAccruals, Recognitions, Complete, ItemBases, ContractBases;
    var b := Listed([x, y]);
    var row := AccrualRequired(1, 1, Some(1.0), y.cost, 1, y.id);
    NothingOpen(b.facts);
    AllSelected(b);
    assert LastFor(b.bases, 1) == Some(y);
    assert [ITEM][..0] == [];
    assert RowsFor(b, 1, b.costs[0], [ITEM]) == [row];
    assert FreshOf(b, 0, 1) == Required([row]);
    assert [1][..0] == [];
  }
}
