/**
 What is reversed against a line over a whole run, whichever of its allocations the reversals name: it stays within the
 line's quantity as long as every import fits and only what nothing was reversed against is superseded.
 */
module LineReversals {
  import opened Sequences
  import P = PeriodCloseRules
  import PeriodCloseTheorems
  import opened ItemAllocations
  import opened ItemAllocationTheorems
  import opened AllocationBalances

  function Against(allocations: seq<Allocation>, line: nat): P.Reversal -> bool {
    (r: P.Reversal) => r.allocation < |allocations| && allocations[r.allocation].invoiceItem == line
  }

  /** All that is reversed against a line's allocations, current and superseded. */
  function ReversedOnLine(w: World, line: nat): real {
    Total(Keep(w.reversals, Against(w.allocations, line)), P.Quantity)
  }

  // ---- The same sum by allocation ----

  function SpentOn(line: nat, reversals: seq<P.Reversal>): Allocation -> real {
    (a: Allocation) => if a.invoiceItem == line then P.Consumed(reversals, a.id) else 0.0
  }

  lemma {:induction false} TotalOfNothing(s: seq<Allocation>, weight: Allocation -> real)
    requires forall a :: a in s ==> weight(a) == 0.0
    ensures Total(s, weight) == 0.0
  {
    if s == [] {
    } else {
      assert s[|s| - 1] in s;
      TotalOfNothing(s[..|s| - 1], weight);
    }
  }

  /** Summed by reversal or by allocation, what is reversed against a line is the same. */
  lemma {:induction false} ReversedByAllocation(allocations: seq<Allocation>, reversals: seq<P.Reversal>, line: nat)
    requires forall i :: 0 <= i < |allocations| ==> allocations[i].id == i
    requires forall r :: r in reversals ==> r.allocation < |allocations|
    ensures Total(Keep(reversals, Against(allocations, line)), P.Quantity)
         == Total(allocations, SpentOn(line, reversals))
  {
    hide P.Consumed;
    if reversals == [] {
      NothingConsumed(line);
      TotalOfNothing(allocations, SpentOn(line, reversals));
    } else {
      var n := |reversals| - 1;
      var front, last := reversals[..n], reversals[n];
      assert reversals == front + [last] && last in reversals;
      ReversedByAllocation(allocations, front, line);
      forall a | a in allocations
        ensures P.Consumed(reversals, a.id)
             == P.Consumed(front, a.id) + (if a.id == last.allocation then last.quantity else 0.0)
      {
        PeriodCloseTheorems.ConsumedAppend(front, last, a.id);
      }
      if Against(allocations, line)(last) {
        PeriodCloseTheorems.TotalAppend(Keep(front, Against(allocations, line)), last, P.Quantity);
        TotalRaised(allocations, SpentOn(line, front), SpentOn(line, reversals), last.allocation, last.quantity);
      } else {
        assert Keep(front, Against(allocations, line)) + [] == Keep(front, Against(allocations, line));
        TotalAgrees(allocations, SpentOn(line, front), SpentOn(line, reversals));
      }
    }
  }

  lemma NothingConsumed(line: nat)
    ensures forall a: Allocation :: SpentOn(line, [])(a) == 0.0
  {
  }

  function CurrentOn(line: nat): Allocation -> real {
    (a: Allocation) => if a.supersededBy.None? && a.invoiceItem == line then a.quantity else 0.0
  }

  lemma {:induction false} UsedByAllocation(allocations: seq<Allocation>, line: nat)
    ensures Used(allocations, line) == Total(allocations, CurrentOn(line))
  {
    if allocations == [] {
    } else {
      UsedByAllocation(allocations[..|allocations| - 1], line);
      OnLineLast(allocations, line, QuantityOf);
    }
  }

  lemma {:induction false} TotalAtMost(s: seq<Allocation>, v: Allocation -> real, w: Allocation -> real)
    requires forall a :: a in s ==> v(a) <= w(a)
    ensures Total(s, v) <= Total(s, w)
  {
    if s == [] {
    } else {
      assert s[|s| - 1] in s;
      TotalAtMost(s[..|s| - 1], v, w);
    }
  }

  // ---- What is superseded was never reversed ----

  /** Nothing is reversed against a superseded allocation. */
  ghost predicate RetiredUntouched(w: World) {
    forall a :: a in w.allocations && a.supersededBy.Some? ==> P.Consumed(w.reversals, a.id) == 0.0
  }

  /** A supersession retires only what nothing is reversed against. */
  predicate RetiresUntouched(w: World, a: Action) {
    a.Replace? && SupersedeRefusal(w, a.replacement).None? ==> P.Consumed(w.reversals, a.replacement.target) == 0.0
  }

  lemma BookReversalLeavesRetired(w: World, p: Pack, e: ReversalEntry)
    requires Numbered(w) && RetiredUntouched(w) && BookReversal(w, p, e).Some?
    ensures RetiredUntouched(BookReversal(w, p, e).value)
  {
    hide AccrualOf, Find, NamesAllocation, P.Consumed, Reversed;
    var next := BookReversal(w, p, e).value;
    if next != w {
      var r := next.reversals[|w.reversals|];
      forall a | a in w.allocations && a.supersededBy.Some?
        ensures P.Consumed(next.reversals, a.id) == 0.0
      {
        PeriodCloseTheorems.ConsumedAppend(w.reversals, r, a.id);
      }
    }
  }

  lemma {:induction false} BookReversalsLeaveRetired(w: World, p: Pack, entries: seq<ReversalEntry>)
    requires Numbered(w) && RetiredUntouched(w) && BookReversals(w, p, entries).Some?
    ensures RetiredUntouched(BookReversals(w, p, entries).value)
  {
    hide Numbered, RetiredUntouched, BookReversal;
    if entries == [] {
    } else {
      var n := |entries| - 1;
      BookReversalsLeaveRetired(w, p, entries[..n]);
      BookedStaysNumbered(w, p, entries[..n]);
      BookReversalLeavesRetired(BookReversals(w, p, entries[..n]).value, p, entries[n]);
    }
  }

  /** Rows that were there are as they were, and nothing is reversed against a new one. */
  lemma GrowthLeavesRetired(w: World, next: World)
    requires Anchored(w) && RetiredUntouched(w) && Numbered(next)
    requires w.allocations <= next.allocations && next.reversals == w.reversals
    ensures RetiredUntouched(next)
  {
    hide P.Consumed;
    forall a | a in next.allocations && a.supersededBy.Some?
      ensures P.Consumed(next.reversals, a.id) == 0.0
    {
      if a.id < |w.allocations| {
        assert w.allocations[a.id] == a;
      } else {
        NotYetConsumed(w, a.id);
      }
    }
  }

  lemma ImportLeavesRetired(w: World, p: Pack)
    requires Sound(w) && Anchored(w) && RetiredUntouched(w) && ImportClose(w, p).Some?
    ensures RetiredUntouched(ImportClose(w, p).value)
  {
    hide Sound, Anchored, BookAccruals, AllocateEntries, BookReversals, Touched, Numbered, RetiredUntouched;
    BookAccrualsKeep(w, p.accruals);
    var booked := BookAccruals(w, p.accruals).value;
    AllocateEntriesKeep(booked, p.allocations);
    var placed := AllocateEntries(booked, p.allocations).value;
    SoundIsNumbered(placed);
    GrowthLeavesRetired(w, placed);
    BookReversalsLeaveRetired(placed, p, p.reversals);
    var done := BookReversals(placed, p, p.reversals).value;
    RestatedSame(done, Touched(done.reversals, |w.reversals|));
  }

  lemma SoundIsNumbered(w: World)
    requires Sound(w)
    ensures Numbered(w) && Lineage(w)
  {
  }

  lemma RestatedSame(w: World, touched: set<nat>)
    requires RetiredUntouched(w)
    ensures RetiredUntouched(Restated(w, touched))
  {
  }

  lemma SupersessionLeavesRetired(w: World, r: Replacement)
    requires Anchored(w) && Numbered(w) && RetiredUntouched(w)
    requires SupersedeRefusal(w, r).None? && P.Consumed(w.reversals, r.target) == 0.0
    ensures RetiredUntouched(WithReplacement(w, r))
  {
    hide P.Consumed, Guarded, UsedBeside;
    var next := WithReplacement(w, r);
    forall a | a in next.allocations && a.supersededBy.Some?
      ensures P.Consumed(next.reversals, a.id) == 0.0
    {
      var i :| 0 <= i < |next.allocations| && next.allocations[i] == a;
      if i != r.target {
        assert w.allocations[i] == a && a in w.allocations;
      }
    }
  }

  lemma ActionLeavesRetired(w: World, a: Action)
    requires Sound(w) && Anchored(w) && RetiredUntouched(w) && RetiresUntouched(w, a)
    ensures RetiredUntouched(Apply(w, a))
  {
    hide Sound, Anchored, Numbered, RetiredUntouched, ImportClose, AllocateEntries, Validate, P.Consumed,
      WithReplacement,
      SupersedeRefusal;
    ActionKeepsSound(w, a);
    SoundIsNumbered(w);
    SoundIsNumbered(Apply(w, a));
    match a
    case CloseFacts(_, p) =>
      if Imports(w, a) {
        ImportLeavesRetired(w, p);
        SameRowsLeaveRetired(ImportClose(w, p).value, Apply(w, a));
      }
    case Replace(r) =>
      if SupersedeRefusal(w, r).None? {
        SupersessionLeavesRetired(w, r);
      }
    case FactPack(entries) =>
      AllocateEntriesKeep(w, entries);
      GrowthLeavesRetired(w, Apply(w, a));
    case _ => GrowthLeavesRetired(w, Apply(w, a));
  }

  lemma SameRowsLeaveRetired(w: World, next: World)
    requires RetiredUntouched(w) && next.allocations == w.allocations && next.reversals == w.reversals
    ensures RetiredUntouched(next)
  {
  }

  predicate Careful(w: World, a: Action) { ActionFits(w, a) && RetiresUntouched(w, a) }

  lemma {:induction false} RunLeavesRetired(actions: seq<Action>)
    requires forall i :: 0 <= i < |actions| ==> Careful(Run(EMPTY, actions[..i]), actions[i])
    ensures RetiredUntouched(Run(EMPTY, actions)) && WithinAllocations(Run(EMPTY, actions))
  {
    if actions == [] {
    } else {
      hide Apply, ActionFits, RetiresUntouched, RetiredUntouched, WithinAllocations, Sound, Anchored;
      var n := |actions| - 1;
      forall i | 0 <= i < n
        ensures Careful(Run(EMPTY, actions[..n][..i]), actions[..n][i])
      {
        assert actions[..n][..i] == actions[..i];
      }
      RunLeavesRetired(actions[..n]);
      EveryRunIsSound(actions[..n]);
      ActionKeepsWithin(Run(EMPTY, actions[..n]), actions[n]);
      ActionLeavesRetired(Run(EMPTY, actions[..n]), actions[n]);
    }
  }

  // ---- A line's quantity is reversed at most once ----

  /** What is reversed against a line is at most what its current allocations hold. */
  lemma ReversedAtMostUsed(w: World, line: nat)
    requires Sound(w) && Anchored(w) && WithinAllocations(w) && RetiredUntouched(w)
    ensures ReversedOnLine(w, line) <= Used(w.allocations, line)
  {
    hide WithinLine, StatusKept, ConfirmedFor, P.Consumed, Keep, Used, OnLine;
    ReversedByAllocation(w.allocations, w.reversals, line);
    UsedByAllocation(w.allocations, line);
    TotalAtMost(w.allocations, SpentOn(line, w.reversals), CurrentOn(line));
  }

  /** A line with any allocation has a current one: the last. */
  lemma {:induction false} SomeCurrent(w: World, i: nat, line: nat)
    requires Lineage(w) && i < |w.allocations| && w.allocations[i].invoiceItem == line
    ensures OnLine(w.allocations, line) != []
    decreases |w.allocations| - i
  {
    if w.allocations[i].supersededBy.None? {
      assert w.allocations[i] in OnLine(w.allocations, line);
    } else {
      SomeCurrent(w, w.allocations[i].supersededBy.value, line);
    }
  }

  /** Over every run whose imports fit and whose supersessions retire only what nothing is reversed against, all that
      is reversed against a line's allocations, current and superseded, stays within the line's quantity. */
  lemma LineReversedOnce(actions: seq<Action>, line: nat)
    requires forall i :: 0 <= i < |actions| ==> Careful(Run(EMPTY, actions[..i]), actions[i])
    ensures var w := Run(EMPTY, actions);
            && ReversedOnLine(w, line) <= Used(w.allocations, line)
            && ((exists a :: a in w.allocations && a.invoiceItem == line) ==>
                  line in w.lines && w.lines[line].quantity.Some?
                  && ReversedOnLine(w, line) <= w.lines[line].quantity.value)
  {
    hide Run, Used, OnLine, ReversedOnLine, Sound, Anchored, Lineage, WithinAllocations, RetiredUntouched, Careful,
      ConfirmedFor;
    var w := Run(EMPTY, actions);
    EveryRunIsSound(actions);
    RunLeavesRetired(actions);
    ReversedAtMostUsed(w, line);
    if a :| a in w.allocations && a.invoiceItem == line {
      var i :| 0 <= i < |w.allocations| && w.allocations[i] == a;
      SoundIsNumbered(w);
      SomeCurrent(w, i, line);
      LineCapacityAlways(actions, line);
    }
  }
}
