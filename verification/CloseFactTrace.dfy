/** Whatever an accepted close-fact pack books states what one of its entries says, and every entry is booked. */
module CloseFactTrace {
  import opened Options
  import opened Sequences
  import P = PeriodCloseRules
  import opened ItemAllocations
  import opened ItemAllocationTheorems

  // ---- What an entry says ----

  ghost predicate AccrualSays(b: Booked, e: AccrualEntry) {
    && e.item == Some(b.accrual.item) && e.period == b.period
    && b.accrual.quantity == e.quantity && b.accrual.cost == e.cost && b.accrual.fact == e.fact
  }

  ghost predicate AllocationSays(a: Allocation, e: AllocationEntry) {
    && e.line == Some(a.invoiceItem) && e.item == Some(a.item) && a.quantity == e.quantity && a.net == e.net
    && a.supersededBy.None?
  }

  /** The reversal has the entry's figures, its accrual the entry's item and period, its allocation the entry's line and
      item. */
  ghost predicate ReversalSays(accruals: seq<Booked>, allocations: seq<Allocation>, r: P.Reversal, e: ReversalEntry) {
    && r.quantity == e.quantity && r.cost == e.cost
    && r.accrual < |accruals| && e.item == Some(accruals[r.accrual].accrual.item)
         && e.period == accruals[r.accrual].period
    && r.allocation < |allocations| && e.line == Some(allocations[r.allocation].invoiceItem)
    && e.item == Some(allocations[r.allocation].item) && allocations[r.allocation].supersededBy.None?
  }

  // ---- Accruals ----

  ghost predicate AccrualTraced(b: Booked, entries: seq<AccrualEntry>) {
    exists e :: e in entries && AccrualSays(b, e)
  }

  /** Every accrual from place k on states an entry. */
  ghost predicate AccrualsTraced(accruals: seq<Booked>, k: nat, entries: seq<AccrualEntry>) {
    forall i :: k <= i < |accruals| ==> AccrualTraced(accruals[i], entries)
  }

  lemma {:induction false} BookAccrualsTraced(w: World, entries: seq<AccrualEntry>)
    requires BookAccruals(w, entries).Some?
    ensures var v := BookAccruals(w, entries).value;
            && w.accruals <= v.accruals && AccrualsTraced(v.accruals, |w.accruals|, entries)
            && (forall i :: |w.accruals| <= i < |v.accruals| ==> v.accruals[i].status.Active?)
            && forall i, j :: |w.accruals| <= i < |v.accruals| && 0 <= j < i ==>
                 v.accruals[i].accrual.item != v.accruals[j].accrual.item
                   || v.accruals[i].period != v.accruals[j].period
  {
    hide FindAccrual;
    if entries == [] {
    } else {
      var n := |entries| - 1;
      BookAccrualsTraced(w, entries[..n]);
      assert entries[n] in entries && forall e :: e in entries[..n] ==> e in entries;
      var u, v := BookAccruals(w, entries[..n]).value, BookAccruals(w, entries).value;
      if v != u {
        assert forall b :: b in u.accruals ==> b.accrual.item != entries[n].item.value || b.period != entries[n].period;
        assert AccrualSays(v.accruals[|u.accruals|], entries[n]);
      }
    }
  }

  // ---- Allocations ----

  ghost predicate AllocationsTraced(allocations: seq<Allocation>, k: nat, entries: seq<AllocationEntry>) {
    forall i :: k <= i < |allocations| ==> exists e :: e in entries && AllocationSays(allocations[i], e)
  }

  lemma {:induction false} AllocateEntriesTraced(w: World, entries: seq<AllocationEntry>)
    requires AllocateEntries(w, entries).Some?
    ensures var v := AllocateEntries(w, entries).value;
            w.allocations <= v.allocations && AllocationsTraced(v.allocations, |w.allocations|, entries)
  {
    hide Find, Validate;
    if entries == [] {
    } else {
      var n := |entries| - 1;
      AllocateEntriesTraced(w, entries[..n]);
      assert entries[n] in entries && forall e :: e in entries[..n] ==> e in entries;
      var u, v := AllocateEntries(w, entries[..n]).value, AllocateEntries(w, entries).value;
      if v != u {
        assert AllocationSays(v.allocations[|u.allocations|], entries[n]);
      }
    }
  }

  // ---- Reversals ----

  ghost predicate ReversalTraced(w: World, r: P.Reversal, entries: seq<ReversalEntry>) {
    exists e :: e in entries && ReversalSays(w.accruals, w.allocations, r, e)
  }

  ghost predicate ReversalsTraced(w: World, k: nat, entries: seq<ReversalEntry>) {
    forall i :: k <= i < |w.reversals| ==> ReversalTraced(w, w.reversals[i], entries)
  }

  lemma BookReversalTraced(w: World, p: Pack, e: ReversalEntry)
    requires BookReversal(w, p, e).Some? && BookReversal(w, p, e).value != w
    ensures var v := BookReversal(w, p, e).value;
            && |v.reversals| == |w.reversals| + 1
            && ReversalSays(w.accruals, w.allocations, v.reversals[|w.reversals|], e)
  {
    hide NamesAccrual, NamesAllocation, Reversed;
  }

  lemma {:induction false} BookReversalsTraced(w: World, p: Pack, entries: seq<ReversalEntry>)
    requires BookReversals(w, p, entries).Some?
    ensures var v := BookReversals(w, p, entries).value;
            && w.reversals <= v.reversals && v == w.(reversals := v.reversals)
            && ReversalsTraced(v, |w.reversals|, entries)
  {
    hide BookReversal, ReversalSays;
    if entries == [] {
    } else {
      var n := |entries| - 1;
      BookReversalsTraced(w, p, entries[..n]);
      assert entries[n] in entries && forall e :: e in entries[..n] ==> e in entries;
      var u, v := BookReversals(w, p, entries[..n]).value, BookReversals(w, p, entries).value;
      ReversalAdds(u, p, entries[n]);
      if v != u {
        BookReversalTraced(u, p, entries[n]);
      }
    }
  }

  lemma ReversalAdds(w: World, p: Pack, e: ReversalEntry)
    requires BookReversal(w, p, e).Some?
    ensures var v := BookReversal(w, p, e).value; w.reversals <= v.reversals && v == w.(reversals := v.reversals)
  {
    hide AccrualOf, AllocationOf, Reversed;
  }

  // ---- The whole pack ----

  /** Restating changes no accrual but for its status. */
  lemma RestatedSays(w: World, touched: set<nat>, k: nat, entries: seq<AccrualEntry>, reversals: seq<ReversalEntry>,
      m: nat)
    requires AccrualsTraced(w.accruals, k, entries) && ReversalsTraced(w, m, reversals)
    ensures var v := Restated(w, touched);
            AccrualsTraced(v.accruals, k, entries) && ReversalsTraced(v, m, reversals)
  {
    hide StatusNow;
    var v := Restated(w, touched);
    forall i | k <= i < |v.accruals|
      ensures AccrualTraced(v.accruals[i], entries)
    {
      assert AccrualTraced(w.accruals[i], entries);
      var e :| e in entries && AccrualSays(w.accruals[i], e);
      assert AccrualSays(v.accruals[i], e);
    }
    forall i | m <= i < |v.reversals|
      ensures ReversalTraced(v, v.reversals[i], reversals)
    {
      assert ReversalTraced(w, w.reversals[i], reversals);
      var e :| e in reversals && ReversalSays(w.accruals, w.allocations, w.reversals[i], e);
      assert ReversalSays(v.accruals, v.allocations, v.reversals[i], e);
    }
  }

  /**
   After an accepted import every new accrual, allocation and reversal states what an entry of the pack says; what was
   there before is as it was, but for statuses.
   */
  lemma ImportStatesItsEntries(w: World, p: Pack)
    requires ImportClose(w, p).Some?
    ensures var v := ImportClose(w, p).value;
            && |w.accruals| <= |v.accruals| && w.allocations <= v.allocations && w.reversals <= v.reversals
            && (forall i :: 0 <= i < |w.accruals| ==>
                  v.accruals[i].accrual == w.accruals[i].accrual && v.accruals[i].period == w.accruals[i].period)
            && AccrualsTraced(v.accruals, |w.accruals|, p.accruals)
            && AllocationsTraced(v.allocations, |w.allocations|, p.allocations)
            && ReversalsTraced(v, |w.reversals|, p.reversals)
  {
    hide BookAccruals, AllocateEntries, BookReversals, Touched, AccrualSays, AllocationSays, ReversalSays, OnBooks,
      Placed,
      StatusNow;
    var booked := BookAccruals(w, p.accruals).value;
    var placed := AllocateEntries(booked, p.allocations).value;
    var done := BookReversals(placed, p, p.reversals).value;
    BookAccrualsTraced(w, p.accruals);
    BookAccrualsBook(w, p.accruals);
    AllocateEntriesTraced(booked, p.allocations);
    AllocateEntriesPlace(booked, p.allocations);
    BookReversalsTraced(placed, p, p.reversals);
    RestatedSays(done, Touched(done.reversals, |w.reversals|), |w.accruals|, p.accruals, p.reversals, |w.reversals|);
  }

  /** And every entry is there: an accrual of its item and period, a current allocation of its line and item, and a
      reversal that joins the two. */
  lemma EveryEntryBooked(w: World, p: Pack)
    requires ImportClose(w, p).Some?
    ensures var v := ImportClose(w, p).value;
            && (forall e :: e in p.accruals ==>
                  exists b :: b in v.accruals && e.item == Some(b.accrual.item) && e.period == b.period)
            && (forall e :: e in p.allocations ==>
                  exists a :: a in v.allocations && a.supersededBy.None?
                              && e.line == Some(a.invoiceItem) && e.item == Some(a.item))
            && (forall e :: e in p.reversals ==>
                  exists r :: r in v.reversals && Joins(v, r, e))
  {
    hide ImportClose;
    var v := ImportClose(w, p).value;
    ImportLeaves(w, p, v);
    forall e | e in p.accruals
      ensures exists b :: b in v.accruals && e.item == Some(b.accrual.item) && e.period == b.period
    {
      assert OnBooks(v, e);
      assert v.accruals[FindAccrual(v.accruals, e.item.value, e.period).value] in v.accruals;
    }
    forall e | e in p.allocations
      ensures exists a :: a in v.allocations && a.supersededBy.None?
                          && e.line == Some(a.invoiceItem) && e.item == Some(a.item)
    {
      assert Placed(v, e);
      assert v.allocations[Find(v.allocations, e.line.value, e.item.value).value] in v.allocations;
    }
    forall e | e in p.reversals
      ensures exists r :: r in v.reversals && Joins(v, r, e)
    {
      SettledJoins(v, p, e);
    }
  }

  /** The reversal is of the entry's accrual against an allocation of its line to its item. */
  ghost predicate Joins(w: World, r: P.Reversal, e: ReversalEntry) {
    && r.accrual < |w.accruals| && r.allocation < |w.allocations|
    && e.item == Some(w.accruals[r.accrual].accrual.item) && e.period == w.accruals[r.accrual].period
    && e.line == Some(w.allocations[r.allocation].invoiceItem) && e.item == Some(w.allocations[r.allocation].item)
  }

  lemma SettledJoins(w: World, p: Pack, e: ReversalEntry)
    requires Settled(w, p, e)
    ensures exists r :: r in w.reversals && Joins(w, r, e)
  {
    hide NamesAccrual, NamesAllocation;
    var r :| r in w.reversals && r.accrual == AccrualOf(w, p, e).value && r.allocation == AllocationOf(w, p, e).value;
    assert Joins(w, r, e);
  }

  // ---- Statuses ----

  /** What all reversals of an accrual take from its quantity. */
  function ReversedOf(reversals: seq<P.Reversal>, accrual: nat): real {
    Total(Keep(reversals, (r: P.Reversal) => r.accrual == accrual), P.Quantity)
  }

  /** An accrual that has gained a reversal is reversed when nothing remains, partially reversed when something is
      reversed and something remains, else active; any other keeps its status. */
  lemma ImportRestates(w: World, p: Pack, i: nat)
    requires Sound(w) && Anchored(w) && ImportClose(w, p).Some? && i < |ImportClose(w, p).value.accruals|
    ensures var v := ImportClose(w, p).value; var b := v.accruals[i];
            var gained := exists k :: |w.reversals| <= k < |v.reversals| && v.reversals[k].accrual == i;
            var reversed := ReversedOf(v.reversals, i);
            && (gained ==>
                  && (b.status.Reversed? <==> b.accrual.quantity <= reversed)
                  && (b.status.PartiallyReversed? <==> 0.0 < reversed < b.accrual.quantity)
                  && (b.status.Active? <==> reversed <= 0.0 && reversed < b.accrual.quantity))
            && (!gained ==> b.status == if i < |w.accruals| then w.accruals[i].status else P.Active)
  {
    hide Sound, Anchored, BookAccruals, AllocateEntries, BookReversals, Find, FindAccrual, Numbered, SoundBut;
    BookAccrualsKeep(w, p.accruals);
    BookAccrualsTraced(w, p.accruals);
    var booked := BookAccruals(w, p.accruals).value;
    AllocateEntriesKeep(booked, p.allocations);
    var placed := AllocateEntries(booked, p.allocations).value;
    BookReversalsTraced(placed, p, p.reversals);
    var done := BookReversals(placed, p, p.reversals).value;
    PlacedNumbered(placed, i);
    assert done.accruals[i].accrual.id == i;
    assert i in Touched(done.reversals, |w.reversals|) <==>
           exists k :: |w.reversals| <= k < |done.reversals| && done.reversals[k].accrual == i;
    StatusMeans(done.reversals, done.accruals[i].accrual);
  }

  lemma PlacedNumbered(w: World, i: nat)
    requires Sound(w) && i < |w.accruals|
    ensures w.accruals[i].accrual.id == i
  {
  }

  lemma StatusMeans(reversals: seq<P.Reversal>, a: P.Accrual)
    ensures var s, reversed := StatusNow(reversals, a), ReversedOf(reversals, a.id);
            && (s.Reversed? <==> a.quantity <= reversed)
            && (s.PartiallyReversed? <==> 0.0 < reversed < a.quantity)
            && (s.Active? <==> reversed <= 0.0 && reversed < a.quantity)
  {
    KeepAgrees(reversals, (r: P.Reversal) => r.accrual == a.id, (r: P.Reversal) => r.accrual == a.id);
  }

  // ---- When a pack is accepted ----

  /** Accruals need an item and a period; that is all. */
  lemma {:induction false} AccrualsAcceptedExactly(w: World, entries: seq<AccrualEntry>)
    ensures BookAccruals(w, entries).Some? <==> forall e :: e in entries ==> e.item.Some? && e.period != ""
  {
    hide FindAccrual;
    if entries == [] {
    } else {
      var n := |entries| - 1;
      AccrualsAcceptedExactly(w, entries[..n]);
      assert entries == entries[..n] + [entries[n]];
    }
  }

  /** The pack names the accrual and the allocation that a reversal is about. */
  ghost predicate NamedInPack(p: Pack, e: ReversalEntry) {
    && (exists a :: a in p.accruals && e.item.Some? && a.item == e.item && e.period != "" && a.period == e.period)
    && (exists a :: a in p.allocations && e.item.Some? && e.line.Some? && a.item == e.item && a.line == e.line)
  }

  /** Once its accruals and allocations are placed, a pack is accepted exactly when it names both for each reversal. */
  lemma {:induction false} ReversalsAcceptedExactly(w: World, p: Pack, entries: seq<ReversalEntry>)
    requires (forall e :: e in p.accruals ==> OnBooks(w, e)) && (forall e :: e in p.allocations ==> Placed(w, e))
    ensures BookReversals(w, p, entries).Some? <==> forall e :: e in entries ==> NamedInPack(p, e)
  {
    hide BookReversal, NamedInPack, OnBooks, Placed, Settled;
    if entries == [] {
    } else {
      var n := |entries| - 1;
      ReversalsAcceptedExactly(w, p, entries[..n]);
      assert entries == entries[..n] + [entries[n]];
      if BookReversals(w, p, entries[..n]).Some? {
        BookReversalsTraced(w, p, entries[..n]);
        ReversalAcceptedExactly(w, BookReversals(w, p, entries[..n]).value, p, entries[n]);
      }
    }
  }

  lemma ReversalAcceptedExactly(w: World, v: World, p: Pack, e: ReversalEntry)
    requires (forall e :: e in p.accruals ==> OnBooks(w, e)) && (forall e :: e in p.allocations ==> Placed(w, e))
    requires v == w.(reversals := v.reversals)
    ensures BookReversal(v, p, e).Some? <==> NamedInPack(p, e)
  {
    hide Find, FindAccrual;
  }
}
