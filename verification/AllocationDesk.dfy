/** The writers of item allocations over the stored lists. */
module AllocationDesk {
  import opened Options
  import opened Sequences
  import P = PeriodCloseRules
  import PeriodCloseTheorems
  import opened ItemAllocations
  import opened ItemAllocationTheorems

  ghost predicate AccrualsIndexed(index: map<(nat, string), nat>, accruals: seq<Booked>, entries: seq<AccrualEntry>) {
    forall item: nat, period: string ::
      && ((item, period) in index <==> exists e :: e in entries && e.item == Some(item) && e.period == period)
      && ((item, period) in index ==> FindAccrual(accruals, item, period) == Some(index[(item, period)]))
  }

  ghost predicate AllocationsIndexed(index: map<(nat, nat), nat>, allocations: seq<Allocation>,
      entries: seq<AllocationEntry>) {
    forall line: nat, item: nat ::
      && ((line, item) in index <==> exists e :: e in entries && e.line == Some(line) && e.item == Some(item))
      && ((line, item) in index ==> Find(allocations, line, item) == Some(index[(line, item)]))
  }

  lemma AccrualsIndexedNone(accruals: seq<Booked>)
    ensures AccrualsIndexed(map[], accruals, [])
  {
  }

  lemma AllocationsIndexedNone(allocations: seq<Allocation>)
    ensures AllocationsIndexed(map[], allocations, [])
  {
  }

  lemma AccrualsIndexedNext(index: map<(nat, string), nat>, accruals: seq<Booked>, more: seq<Booked>,
      entries: seq<AccrualEntry>, i: nat, id: nat)
    requires i < |entries| && accruals <= more && AccrualsIndexed(index, accruals, entries[..i])
    requires entries[i].item.Some? && FindAccrual(more, entries[i].item.value, entries[i].period) == Some(id)
    ensures AccrualsIndexed(index[(entries[i].item.value, entries[i].period) := id], more, entries[..i + 1])
  {
    var e := entries[i];
    var next := index[(e.item.value, e.period) := id];
    assert entries[..i + 1] == entries[..i] + [e];
    forall item: nat, period: string
      ensures (item, period) in next
          <==> exists e :: e in entries[..i + 1] && e.item == Some(item) && e.period == period
      ensures (item, period) in next ==> FindAccrual(more, item, period) == Some(next[(item, period)])
    {
      assert item == e.item.value && period == e.period ==> e in entries[..i + 1] && e.item == Some(item);
      if (item, period) in index {
        FindAccrualStays(accruals, more, item, period);
      }
    }
  }

  lemma AllocationsIndexedNext(index: map<(nat, nat), nat>, allocations: seq<Allocation>, more: seq<Allocation>,
                               entries: seq<AllocationEntry>, i: nat, id: nat)
    requires i < |entries| && allocations <= more && AllocationsIndexed(index, allocations, entries[..i])
    requires entries[i].line.Some? && entries[i].item.Some?
      && Find(more, entries[i].line.value, entries[i].item.value) == Some(id)
    ensures AllocationsIndexed(index[(entries[i].line.value, entries[i].item.value) := id], more, entries[..i + 1])
  {
    var e := entries[i];
    var next := index[(e.line.value, e.item.value) := id];
    assert entries[..i + 1] == entries[..i] + [e];
    forall line: nat, item: nat
      ensures (line, item) in next
          <==> exists e :: e in entries[..i + 1] && e.line == Some(line) && e.item == Some(item)
      ensures (line, item) in next ==> Find(more, line, item) == Some(next[(line, item)])
    {
      assert line == e.line.value && item == e.item.value ==> e in entries[..i + 1] && e.item == Some(item);
      if (line, item) in index {
        FindStays(allocations, more, line, item);
      }
    }
  }

  lemma AllocateEntriesNext(w: World, entries: seq<AllocationEntry>, i: nat)
    requires i < |entries| && AllocateEntries(w, entries[..i]).Some?
    ensures AllocateEntries(w, entries[..i + 1]) == AllocateEntry(AllocateEntries(w, entries[..i]).value, entries[i])
  {
    assert entries[..i + 1][..i] == entries[..i];
  }

  lemma {:induction false} AllocateEntriesStops(w: World, entries: seq<AllocationEntry>, i: nat)
    requires i <= |entries| && AllocateEntries(w, entries[..i]).None?
    ensures AllocateEntries(w, entries).None?
    decreases |entries| - i
  {
    if i == |entries| {
      assert entries[..i] == entries;
    } else {
      assert entries[..i + 1][..i] == entries[..i];
      AllocateEntriesStops(w, entries, i + 1);
    }
  }

  lemma BookAccrualsNext(w: World, entries: seq<AccrualEntry>, i: nat)
    requires i < |entries| && BookAccruals(w, entries[..i]).Some?
    ensures BookAccruals(w, entries[..i + 1]) == BookAccrual(BookAccruals(w, entries[..i]).value, entries[i])
  {
    assert entries[..i + 1][..i] == entries[..i];
  }

  lemma {:induction false} BookAccrualsStop(w: World, entries: seq<AccrualEntry>, i: nat)
    requires i <= |entries| && BookAccruals(w, entries[..i]).None?
    ensures BookAccruals(w, entries).None?
    decreases |entries| - i
  {
    if i == |entries| {
      assert entries[..i] == entries;
    } else {
      assert entries[..i + 1][..i] == entries[..i];
      BookAccrualsStop(w, entries, i + 1);
    }
  }

  lemma BookReversalsNext(w: World, p: Pack, entries: seq<ReversalEntry>, i: nat)
    requires i < |entries| && BookReversals(w, p, entries[..i]).Some?
    ensures BookReversals(w, p, entries[..i + 1])
      == BookReversal(BookReversals(w, p, entries[..i]).value, p, entries[i])
  {
    assert entries[..i + 1][..i] == entries[..i];
  }

  lemma {:induction false} BookReversalsStop(w: World, p: Pack, entries: seq<ReversalEntry>, i: nat)
    requires i <= |entries| && BookReversals(w, p, entries[..i]).None?
    ensures BookReversals(w, p, entries).None?
    decreases |entries| - i
  {
    if i == |entries| {
      assert entries[..i] == entries;
    } else {
      assert entries[..i + 1][..i] == entries[..i];
      BookReversalsStop(w, p, entries, i + 1);
    }
  }

  lemma FoundAccrual(accruals: seq<Booked>, b: Booked)
    requires FindAccrual(accruals, b.accrual.item, b.period).None?
    ensures FindAccrual(accruals + [b], b.accrual.item, b.period) == Some(|accruals|)
  {
    assert (accruals + [b])[..|accruals|] == accruals;
  }

  lemma FoundAllocation(allocations: seq<Allocation>, a: Allocation)
    requires a.supersededBy.None? && Find(allocations, a.invoiceItem, a.item).None?
    ensures Find(allocations + [a], a.invoiceItem, a.item) == Some(|allocations|)
  {
    assert (allocations + [a])[..|allocations|] == allocations;
  }

  lemma UsedWith(allocations: seq<Allocation>, a: Allocation, line: nat)
    ensures Used(allocations + [a], line)
         == Used(allocations, line) + (if a.supersededBy.None? && a.invoiceItem == line then a.quantity else 0.0)
  {
    if a.supersededBy.None? {
      UsedNext(allocations, a, line);
    } else {
      assert (allocations + [a])[..|allocations|] == allocations;
      assert OnLine(allocations, line) + [] == OnLine(allocations, line);
    }
  }

  lemma UsedBesideNext(allocations: seq<Allocation>, a: Allocation, line: nat, target: nat)
    ensures UsedBeside(allocations + [a], line, target) == UsedBeside(allocations, line, target)
      + (if a.supersededBy.None? && a.invoiceItem == line && a.id != target then a.quantity else 0.0)
  {
    var beside := (x: Allocation) => x.supersededBy.None? && x.invoiceItem == line && x.id != target;
    assert (allocations + [a])[..|allocations|] == allocations;
    if beside(a) {
      PeriodCloseTheorems.TotalAppend(Keep(allocations, beside), a, QuantityOf);
    } else {
      assert Keep(allocations, beside) + [] == Keep(allocations, beside);
    }
  }

  class Desk {
    var lines: map<nat, Line>
    var items: map<nat, nat>
    var confirmations: seq<P.InvoiceAllocation>
    var allocations: seq<Allocation>
    var payloads: set<Payload>
    var files: set<string>
    var accruals: seq<Booked>
    var reversals: seq<P.Reversal>

    constructor ()
      ensures View() == EMPTY
    {
      lines, items, confirmations, allocations := map[], map[], [], [];
      payloads, files, accruals, reversals := {}, {}, [], [];
    }

    function View(): World
      reads this
    {
      World(lines, items, confirmations, allocations, payloads, files, accruals, reversals)
    }

    /** The quantity already allocated of a line. */
    method SumForLine(line: nat) returns (used: real)
      ensures used == Used(allocations, line)
    {
      used := 0.0;
      for i := 0 to |allocations|
        invariant used == Used(allocations[..i], line)
      {
        assert allocations[..i + 1] == allocations[..i] + [allocations[i]];
        UsedWith(allocations[..i], allocations[i], line);
        if allocations[i].supersededBy.None? && allocations[i].invoiceItem == line {
          used := used + allocations[i].quantity;
        }
      }
      assert allocations[..|allocations|] == allocations;
    }

    /** The quantity already allocated of a line beside one allocation. */
    method SumBeside(line: nat, target: nat) returns (used: real)
      ensures used == UsedBeside(allocations, line, target)
    {
      used := 0.0;
      for i := 0 to |allocations|
        invariant used == UsedBeside(allocations[..i], line, target)
      {
        assert allocations[..i + 1] == allocations[..i] + [allocations[i]];
        UsedBesideNext(allocations[..i], allocations[i], line, target);
        var a := allocations[i];
        if a.supersededBy.None? && a.invoiceItem == line && a.id != target {
          used := used + a.quantity;
        }
      }
      assert allocations[..|allocations|] == allocations;
    }

    /** The guards in their order; the first that fails is the reason.  What is already allocated is summed last,
        unless the caller has done so. */
    method Guard(line: nat, item: nat, quantity: real, net: real, existing: Option<real>)
      returns (refusal: Option<Refusal>)
      requires line in lines && item in items
      ensures refusal
           == Guarded(View(), line, item, quantity, net,
                      if existing.Some? then existing.value else Used(allocations, line))
    {
      hide Used;
      if !ConfirmedFor(confirmations, lines[line].invoice, items[item]) {
        return Some(NotConfirmed);
      }
      if lines[line].quantity.None? {
        return Some(NoLineQuantity);
      }
      if quantity <= 0.0 {
        return Some(QuantityNotPositive);
      }
      if net < 0.0 {
        return Some(NetNegative);
      }
      if net > lines[line].net {
        return Some(NetExceeded);
      }
      var used;
      if existing.Some? {
        used := existing.value;
      } else {
        used := SumForLine(line);
      }
      if used + quantity > lines[line].quantity.value {
        return Some(CapacityExceeded);
      }
      return None;
    }

    /** One manual request: validated, recorded with its payload's digest, or refused without effect. */
    method AllocateManually(r: Request) returns (refusal: Option<Refusal>)
      modifies `allocations, `payloads
      ensures View() == Apply(old(View()), Allocate(r))
      ensures refusal.None? <==> Manual(old(View()), r).Done?
      ensures refusal.Some? ==> Manual(old(View()), r) == Refused(refusal.value)
    {
      hide Guarded, Used;
      if r.line.None? || r.item.None? || r.line.value !in lines || r.item.value !in items {
        return Some(NotFound);
      }
      var payload := Payload(r.line.value, r.item.value, r.quantity, r.net);
      if payload in payloads {
        return Some(DuplicateRequest);
      }
      refusal := Guard(r.line.value, r.item.value, r.quantity.value, r.net.value, None);
      if refusal.Some? {
        return;
      }
      payloads := payloads + {payload};
      allocations := allocations
        + [Allocation(|allocations|, r.line.value, r.item.value, r.quantity.value, r.net.value, None)];
    }

    /** A supersession: the new allocation is inserted and the old one marked, or nothing is changed. */
    method SupersedeAllocation(r: Replacement) returns (refusal: Option<Refusal>)
      modifies `allocations
      ensures View() == Apply(old(View()), Replace(r)) && refusal == SupersedeRefusal(old(View()), r)
    {
      hide UsedBeside, Used, Guarded;
      if r.target >= |allocations| {
        return Some(NotFound);
      }
      var a := allocations[r.target];
      if a.supersededBy.Some? {
        return Some(AlreadySuperseded);
      }
      if r.evidence.Missing? {
        return Some(EvidenceNotFound);
      }
      if r.evidence.Own? {
        return Some(EvidenceReused);
      }
      if a.invoiceItem !in lines || a.item !in items {
        return Some(NotFound);
      }
      var used := SumBeside(a.invoiceItem, r.target);
      refusal := Guard(a.invoiceItem, a.item, r.quantity, r.net, Some(used));
      if refusal.Some? {
        return;
      }
      var id := |allocations|;
      allocations := allocations + [Allocation(id, a.invoiceItem, a.item, r.quantity, r.net, None)];
      allocations := allocations[r.target := a.(supersededBy := Some(id))];
    }

    /** The allocation pass of a pack; false once an entry is rejected. */
    method PlaceAllocations(entries: seq<AllocationEntry>) returns (ok: bool, ids: map<(nat, nat), nat>)
      modifies `allocations
      ensures ok == AllocateEntries(old(View()), entries).Some?
      ensures ok ==> View() == AllocateEntries(old(View()), entries).value
      ensures ok ==> AllocationsIndexed(ids, allocations, entries)
    {
      hide AllocateEntries, Guarded, Used, Find, AllocationsIndexed;
      ghost var before := View();
      ids := map[];
      AllocationsIndexedNone(allocations);
      AllocateNone(before);
      for i := 0 to |entries|
        invariant AllocateEntries(before, entries[..i]) == Some(View())
        invariant AllocationsIndexed(ids, allocations, entries[..i])
      {
        AllocateEntriesNext(before, entries, i);
        var e := entries[i];
        if e.line.None? || e.item.None? {
          AllocateEntriesStops(before, entries, i + 1);
          return false, ids;
        }
        var existing := Find(allocations, e.line.value, e.item.value);
        if existing.Some? {
          AllocationsIndexedNext(ids, allocations, allocations, entries, i, existing.value);
          ids := ids[(e.line.value, e.item.value) := existing.value];
          continue;
        }
        if e.line.value !in lines || e.item.value !in items {
          AllocateEntriesStops(before, entries, i + 1);
          return false, ids;
        }
        var refusal := Guard(e.line.value, e.item.value, e.quantity, e.net, None);
        if refusal.Some? {
          AllocateEntriesStops(before, entries, i + 1);
          return false, ids;
        }
        var a := Allocation(|allocations|, e.line.value, e.item.value, e.quantity, e.net, None);
        FoundAllocation(allocations, a);
        AllocationsIndexedNext(ids, allocations, allocations + [a], entries, i, a.id);
        ids := ids[(e.line.value, e.item.value) := a.id];
        allocations := allocations + [a];
      }
      assert entries[..|entries|] == entries;
      return true, ids;
    }

    /** The allocations of a fact pack: all of them, or none. */
    method ImportFactPack(entries: seq<AllocationEntry>) returns (ok: bool)
      modifies `allocations
      ensures View() == Apply(old(View()), FactPack(entries)) && ok == AllocateEntries(old(View()), entries).Some?
    {
      hide AllocateEntries, AllocationsIndexed;
      var saved := allocations;
      var ids;
      ok, ids := PlaceAllocations(entries);
      if !ok {
        allocations := saved;
      }
    }

    method PlaceAccruals(entries: seq<AccrualEntry>) returns (ok: bool, ids: map<(nat, string), nat>)
      modifies `accruals
      ensures ok == BookAccruals(old(View()), entries).Some?
      ensures ok ==> View() == BookAccruals(old(View()), entries).value && AccrualsIndexed(ids, accruals, entries)
    {
      hide BookAccruals, FindAccrual, AccrualsIndexed;
      ghost var before := View();
      ids := map[];
      AccrualsIndexedNone(accruals);
      BookNone(before);
      for i := 0 to |entries|
        invariant BookAccruals(before, entries[..i]) == Some(View())
        invariant AccrualsIndexed(ids, accruals, entries[..i])
      {
        BookAccrualsNext(before, entries, i);
        var e := entries[i];
        if e.period == "" || e.item.None? {
          BookAccrualsStop(before, entries, i + 1);
          return false, ids;
        }
        var existing := FindAccrual(accruals, e.item.value, e.period);
        if existing.Some? {
          AccrualsIndexedNext(ids, accruals, accruals, entries, i, existing.value);
          ids := ids[(e.item.value, e.period) := existing.value];
          continue;
        }
        var b := Booked(P.Accrual(|accruals|, e.item.value, e.quantity, e.cost, e.fact), e.period, P.Active);
        FoundAccrual(accruals, b);
        AccrualsIndexedNext(ids, accruals, accruals + [b], entries, i, b.accrual.id);
        ids := ids[(e.item.value, e.period) := b.accrual.id];
        accruals := accruals + [b];
      }
      assert entries[..|entries|] == entries;
      return true, ids;
    }

    method PlaceReversals(p: Pack, accrualIds: map<(nat, string), nat>, allocationIds: map<(nat, nat), nat>)
      returns (ok: bool, pending: set<nat>)
      requires AccrualsIndexed(accrualIds, accruals, p.accruals)
        && AllocationsIndexed(allocationIds, allocations, p.allocations)
      modifies `reversals
      ensures ok == BookReversals(old(View()), p, p.reversals).Some?
      ensures ok ==> View() == BookReversals(old(View()), p, p.reversals).value
      ensures ok ==> pending == Touched(reversals, old(|reversals|))
    {
      hide BookReversals, AccrualsIndexed, AllocationsIndexed, AccrualOf, AllocationOf, Touched, Find, FindAccrual;
      ghost var before := View();
      pending := {};
      BookNoReversals(before, p);
      TouchedNone(reversals);
      for i := 0 to |p.reversals|
        invariant BookReversals(before, p, p.reversals[..i]) == Some(View())
        invariant |before.reversals| <= |reversals| && pending == Touched(reversals, |before.reversals|)
      {
        BookReversalsNext(before, p, p.reversals, i);
        var e := p.reversals[i];
        IndexGivesAccrual(View(), p, e, accrualIds);
        IndexGivesAllocation(View(), p, e, allocationIds);
        if e.item.None? || e.period == "" || (e.item.value, e.period) !in accrualIds {
          BookReversalsStop(before, p, p.reversals, i + 1);
          return false, pending;
        }
        if e.line.None? || (e.line.value, e.item.value) !in allocationIds {
          BookReversalsStop(before, p, p.reversals, i + 1);
          return false, pending;
        }
        var accrual, allocation := accrualIds[(e.item.value, e.period)], allocationIds[(e.line.value, e.item.value)];
        if Reversed(reversals, accrual, allocation) {
          continue;
        }
        var r := P.Reversal(accrual, allocation, e.quantity, e.cost);
        TouchedNext(reversals, r, |before.reversals|);
        reversals := reversals + [r];
        pending := pending + {accrual};
      }
      assert p.reversals[..|p.reversals|] == p.reversals;
      return true, pending;
    }

    /** The status of every accrual that has gained a reversal, from its balance. */
    method RestateStatuses(pending: set<nat>)
      requires Numbered(View()) && forall id :: id in pending ==> id < |accruals|
      modifies `accruals
      ensures View() == Restated(old(View()), pending)
    {
      hide StatusNow;
      ghost var before := View();
      var rest := pending;
      assert pending - rest == {};
      while rest != {}
        invariant rest <= pending && |accruals| == |before.accruals|
        invariant forall i ::
            0 <= i < |accruals| ==> accruals[i] == Restate(reversals, pending - rest, before.accruals[i])
        decreases |rest|
      {
        var id :| id in rest;
        var status := StatusNow(reversals, accruals[id].accrual);
        accruals := accruals[id := accruals[id].(status := status)];
        rest := rest - {id};
      }
      assert pending - rest == pending;
      assert accruals == Restated(before, pending).accruals;
    }

    /** A close-fact file: accruals, allocations, reversals and statuses, or nothing; a known file is not read. */
    method ImportCloseFacts(file: string, p: Pack) returns (ok: bool, reimport: bool)
      requires Sound(View()) && Anchored(View())
      modifies this
      ensures View() == Apply(old(View()), CloseFacts(file, p)) && ok == ImportFile(old(View()), file, p).Some?
      ensures reimport <==> file in old(files)
      ensures Sound(View()) && Anchored(View())
    {
      hide Sound, Anchored, BookAccruals, AllocateEntries, BookReversals, SoundBut, Restated, Touched, AccrualsIndexed,
        AllocationsIndexed, Numbered;
      ghost var before := View();
      ActionKeepsSound(before, CloseFacts(file, p));
      reimport := file in files;
      if reimport {
        return true, true;
      }
      var savedAccruals, savedAllocations, savedReversals := accruals, allocations, reversals;
      var accrualIds, allocationIds, pending;
      ok, accrualIds := PlaceAccruals(p.accruals);
      if ok {
        ghost var booked := View();
        BookAccrualsKeep(before, p.accruals);
        ok, allocationIds := PlaceAllocations(p.allocations);
        if ok {
          ghost var placed := View();
          AllocateEntriesKeep(booked, p.allocations);
          ok, pending := PlaceReversals(p, accrualIds, allocationIds);
          if ok {
            StartReversals(booked, placed);
            BookReversalsKeep(placed, p, p.reversals, |before.reversals|);
            PendingAreBooked(View(), |before.reversals|);
            RestateStatuses(pending);
            files := files + {file};
            return;
          }
        }
      }
      accruals, allocations, reversals := savedAccruals, savedAllocations, savedReversals;
    }
  }

  lemma AllocateNone(w: World)
    ensures AllocateEntries(w, []) == Some(w)
  {
  }

  lemma BookNone(w: World)
    ensures BookAccruals(w, []) == Some(w)
  {
  }

  lemma BookNoReversals(w: World, p: Pack)
    ensures BookReversals(w, p, []) == Some(w)
  {
  }

  lemma TouchedNone(reversals: seq<P.Reversal>)
    ensures Touched(reversals, |reversals|) == {}
  {
  }

  lemma IndexGivesAccrual(w: World, p: Pack, e: ReversalEntry, index: map<(nat, string), nat>)
    requires AccrualsIndexed(index, w.accruals, p.accruals)
    ensures AccrualOf(w, p, e)
         == if e.item.Some? && e.period != "" && (e.item.value, e.period) in index
              then Some(index[(e.item.value, e.period)]) else None
  {
    hide FindAccrual;
  }

  lemma IndexGivesAllocation(w: World, p: Pack, e: ReversalEntry, index: map<(nat, nat), nat>)
    requires AllocationsIndexed(index, w.allocations, p.allocations)
    ensures AllocationOf(w, p, e)
         == if e.item.Some? && e.line.Some? && (e.line.value, e.item.value) in index
              then Some(index[(e.line.value, e.item.value)]) else None
  {
    hide Find;
  }

  lemma PendingAreBooked(w: World, before: nat)
    requires before <= |w.reversals| && SoundBut(w, Touched(w.reversals, before))
    ensures Numbered(w) && forall id :: id in Touched(w.reversals, before) ==> id < |w.accruals|
  {
    forall id | id in Touched(w.reversals, before)
      ensures id < |w.accruals|
    {
      var i :| before <= i < |w.reversals| && w.reversals[i].accrual == id;
      assert w.reversals[i] in w.reversals;
    }
  }
}
