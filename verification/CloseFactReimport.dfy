/**
 Importing the entries of a close-fact pack once more, at any later time.  A file whose digest is on record is not
 read; the same entries in another file are, and what they do then depends on what was superseded in between.
 */
module CloseFactReimport {
  import opened Options
  import opened ItemAllocations
  import opened ItemAllocationTheorems

  // ---- What stays named ----

  /** The accruals and allocations a pack names are there. */
  ghost predicate Named(w: World, p: Pack) {
    && (forall e :: e in p.accruals ==> OnBooks(w, e))
    && (forall e :: e in p.allocations ==> Placed(w, e))
  }

  /** Nothing is taken away or retired: only added, and statuses restated. */
  ghost predicate Kept(w: World, next: World) {
    && w.allocations <= next.allocations && w.reversals <= next.reversals && |w.accruals| <= |next.accruals|
    && forall i :: 0 <= i < |w.accruals| ==>
         next.accruals[i].accrual == w.accruals[i].accrual && next.accruals[i].period == w.accruals[i].period
  }

  lemma FindAccrualKept(w: World, next: World, item: nat, period: string)
    requires Kept(w, next) && FindAccrual(w.accruals, item, period).Some?
    ensures FindAccrual(next.accruals, item, period) == FindAccrual(w.accruals, item, period)
  {
    var front := next.accruals[..|w.accruals|];
    FindAccrualRestated(w.accruals, front, item, period);
    FindAccrualStays(front, next.accruals, item, period);
  }

  lemma KeptStaysNamed(w: World, next: World, p: Pack)
    requires Kept(w, next) && Named(w, p)
    ensures Named(next, p)
  {
    hide Kept, OnBooks, Placed;
    forall e | e in p.accruals
      ensures OnBooks(next, e)
    {
      OnBooksKept(w, next, e);
    }
    forall e | e in p.allocations
      ensures Placed(next, e)
    {
      PlacedKept(w, next, e);
    }
  }

  lemma OnBooksKept(w: World, next: World, e: AccrualEntry)
    requires Kept(w, next) && OnBooks(w, e)
    ensures OnBooks(next, e)
  {
    hide Kept;
    FindAccrualKept(w, next, e.item.value, e.period);
  }

  lemma PlacedKept(w: World, next: World, e: AllocationEntry)
    requires Kept(w, next) && Placed(w, e)
    ensures Placed(next, e)
  {
    hide Placed;
    PlacedStays(w, next, e);
  }

  lemma SettledKept(w: World, next: World, p: Pack, e: ReversalEntry)
    requires Kept(w, next) && Settled(w, p, e)
    ensures Settled(next, p, e)
  {
    hide Find, FindAccrual, NamesAccrual, NamesAllocation;
    FindAccrualKept(w, next, e.item.value, e.period);
    FindStays(w.allocations, next.allocations, e.line.value, e.item.value);
    var r :| r in w.reversals && r.accrual == AccrualOf(w, p, e).value && r.allocation == AllocationOf(w, p, e).value;
    assert r in next.reversals;
  }

  lemma EntriesKeep(w: World, entries: seq<AllocationEntry>)
    ensures AllocateEntries(w, entries).Some? ==> Kept(w, AllocateEntries(w, entries).value)
  {
    hide AllocateEntries, Placed;
    if AllocateEntries(w, entries).Some? {
      AllocateEntriesPlace(w, entries);
    }
  }

  lemma CloseKeeps(w: World, p: Pack)
    ensures ImportClose(w, p).Some? ==> Kept(w, ImportClose(w, p).value)
  {
    hide AllocateEntries, BookAccruals, BookReversals, OnBooks, Placed, Settled, Touched;
    if ImportClose(w, p).Some? {
      var booked := BookAccruals(w, p.accruals).value;
      BookAccrualsBook(w, p.accruals);
      AllocateEntriesPlace(booked, p.allocations);
      BookReversalsSettle(AllocateEntries(booked, p.allocations).value, p, p.reversals);
    }
  }

  lemma ActionKeeps(w: World, a: Action)
    requires !a.Replace?
    ensures Kept(w, Apply(w, a))
  {
    hide AllocateEntries, ImportClose, Validate;
    match a
    case FactPack(entries) => EntriesKeep(w, entries);
    case CloseFacts(_, p) => CloseKeeps(w, p);
    case _ =>
  }

  /** A supersession leaves a current allocation of the same line and item. */
  lemma ReplacementStaysPlaced(w: World, r: Replacement, e: AllocationEntry)
    requires Placed(w, e)
    ensures Placed(Apply(w, Replace(r)), e)
  {
    hide Guarded, UsedBeside;
    var line, item := e.line.value, e.item.value;
    var i := Find(w.allocations, line, item).value;
    if Supersede(w, r).Done? {
      var next := WithReplacement(w, r);
      var k := if i == r.target then |w.allocations| else i;
      assert Places(next.allocations[k], line, item) && next.allocations[k] in next.allocations;
    }
  }

  lemma ActionStaysNamed(w: World, a: Action, p: Pack)
    requires Named(w, p)
    ensures Named(Apply(w, a), p)
  {
    hide OnBooks, Placed, Apply;
    match a
    case Replace(r) =>
      ReplacementKeepsAccruals(w, r);
      forall e | e in p.accruals
        ensures OnBooks(Apply(w, a), e)
      {
        SameAccrualsSameBooks(w, Apply(w, a), e);
      }
      forall e | e in p.allocations
        ensures Placed(Apply(w, a), e)
      {
        ReplacementStaysPlaced(w, r, e);
      }
    case _ =>
      ActionKeeps(w, a);
      KeptStaysNamed(w, Apply(w, a), p);
  }

  lemma ReplacementKeepsAccruals(w: World, r: Replacement)
    ensures Apply(w, Replace(r)).accruals == w.accruals
  {
  }

  lemma {:induction false} RunStaysNamed(w: World, actions: seq<Action>, p: Pack)
    requires Named(w, p)
    ensures Named(Run(w, actions), p)
  {
    hide Named, Apply;
    if actions == [] {
    } else {
      var n := |actions| - 1;
      RunStaysNamed(w, actions[..n], p);
      ActionStaysNamed(Run(w, actions[..n]), actions[n], p);
    }
  }

  lemma {:induction false} RunKeeps(w: World, actions: seq<Action>)
    requires forall a :: a in actions ==> !a.Replace?
    ensures Kept(w, Run(w, actions))
  {
    hide Apply;
    if actions == [] {
    } else {
      var n := |actions| - 1;
      RunKeeps(w, actions[..n]);
      ActionKeeps(Run(w, actions[..n]), actions[n]);
    }
  }

  // ---- The entries once more ----

  /** An entry whose accrual and allocation the pack names is not rejected while they are there. */
  ghost predicate Resolves(w: World, p: Pack, e: ReversalEntry) {
    AccrualOf(w, p, e).Some? && AllocationOf(w, p, e).Some?
  }

  /** Where everything a pack names is there, it is accepted, and it changes nothing exactly when each of its
      reversals is booked against the allocation that is found now. */
  lemma IdleExactly(w: World, p: Pack)
    requires Named(w, p) && forall e :: e in p.reversals ==> Resolves(w, p, e)
    ensures ImportClose(w, p).Some?
    ensures ImportClose(w, p) == Some(w) <==> forall e :: e in p.reversals ==> Settled(w, p, e)
  {
    hide BookAccruals, AllocateEntries, BookReversals, OnBooks, Placed, Settled, Resolves, Restated, Touched;
    OnBooksAgain(w, p.accruals);
    PlacedAgain(w, p.allocations);
    ResolvedIsBooked(w, p, p.reversals);
    var done := BookReversals(w, p, p.reversals).value;
    BookReversalsSettle(w, p, p.reversals);
    if forall e :: e in p.reversals ==> Settled(w, p, e) {
      SettledAgain(w, p, p.reversals);
      NothingToRestate(w);
    }
    if ImportClose(w, p) == Some(w) {
      RestatedKeepsReversals(done, Touched(done.reversals, |w.reversals|));
      assert done == w;
    }
  }

  lemma RestatedKeepsReversals(w: World, touched: set<nat>)
    ensures Restated(w, touched).reversals == w.reversals
  {
  }

  lemma {:induction false} ResolvedIsBooked(w: World, p: Pack, entries: seq<ReversalEntry>)
    requires forall e :: e in entries ==> Resolves(w, p, e)
    ensures BookReversals(w, p, entries).Some?
  {
    hide BookReversal, Resolves, Settled;
    if entries == [] {
    } else {
      var n := |entries| - 1;
      ResolvedIsBooked(w, p, entries[..n]);
      BookReversalsSettle(w, p, entries[..n]);
      assert Resolves(w, p, entries[n]);
      BookedWhereResolved(w, BookReversals(w, p, entries[..n]).value, p, entries[n]);
    }
  }

  lemma BookedWhereResolved(w: World, next: World, p: Pack, e: ReversalEntry)
    requires Resolves(w, p, e) && next == w.(reversals := next.reversals)
    ensures BookReversal(next, p, e).Some?
  {
    hide Find, FindAccrual, NamesAccrual, NamesAllocation;
  }

  /** A settled entry resolves for as long as what the pack names is there, whatever was superseded. */
  lemma SettledResolves(w: World, later: World, p: Pack, e: ReversalEntry)
    requires Settled(w, p, e) && Named(later, p)
    ensures Resolves(later, p, e)
  {
    hide Find, FindAccrual;
    var a :| a in p.accruals && a.item == e.item && a.period == e.period;
    var b :| b in p.allocations && b.item == e.item && b.line == e.line;
    assert OnBooks(later, a) && Placed(later, b);
  }

  /**
   The entries of an imported pack, met again in any later state, are accepted; and they change nothing exactly when
   each reversal is already booked by its accrual against the allocation its line and item lead to then.
   */
  lemma ReimportIdleExactly(w: World, p: Pack, after: World, actions: seq<Action>)
    requires ImportClose(w, p) == Some(after)
    ensures var later := Run(after, actions);
            && ImportClose(later, p).Some?
            && (ImportClose(later, p) == Some(later) <==> forall e :: e in p.reversals ==> Settled(later, p, e))
  {
    hide ImportClose, OnBooks, Placed, Settled, Resolves, Run;
    var later := Run(after, actions);
    ImportLeaves(w, p, after);
    RunStaysNamed(after, actions, p);
    forall e | e in p.reversals
      ensures Resolves(later, p, e)
    {
      SettledResolves(after, later, p, e);
    }
    IdleExactly(later, p);
  }

  /** So without a supersession in between, importing the entries again is always idle. */
  lemma ReimportIdleWithoutSupersession(w: World, p: Pack, after: World, actions: seq<Action>)
    requires ImportClose(w, p) == Some(after) && forall a :: a in actions ==> !a.Replace?
    ensures ImportClose(Run(after, actions), p) == Some(Run(after, actions))
  {
    hide ImportClose, OnBooks, Placed, Settled, Run, Kept;
    var later := Run(after, actions);
    ImportLeaves(w, p, after);
    RunKeeps(after, actions);
    forall e | e in p.reversals
      ensures Settled(later, p, e)
    {
      SettledKept(after, later, p, e);
    }
    ReimportIdleExactly(w, p, after, actions);
  }

  // ---- Files ----

  /**
   Over any run in which a file was read: that file is never read again, whatever it holds; and another file with the
   same entries leaves behind nothing but its digest exactly when it is known itself or all reversals are settled.
   */
  lemma FileAgain(before: seq<Action>, file: string, p: Pack, after: seq<Action>, again: string)
    requires var w := Run(EMPTY, before); file !in w.files && ImportClose(w, p).Some?
    ensures var later := Run(EMPTY, before + [CloseFacts(file, p)] + after);
            && (forall q :: Apply(later, CloseFacts(file, q)) == later)
            && (Apply(later, CloseFacts(again, p)) == later.(files := later.files + {again}) <==>
                  again in later.files || forall e :: e in p.reversals ==> Settled(later, p, e))
  {
    hide ImportClose, Settled, Run, Named, Resolves;
    var w := Run(EMPTY, before);
    var read := ImportClose(w, p).value;
    var first := read.(files := w.files + {file});
    RunOn(EMPTY, before, [CloseFacts(file, p)]);
    RunOn(EMPTY, before + [CloseFacts(file, p)], after);
    RunOne(w, CloseFacts(file, p));
    var later := Run(first, after);
    RunRemembers(first, after);
    assert file in later.files;
    ImportedNames(w, p, read, first);
    RunStaysNamed(first, after, p);
    forall e | e in p.reversals
      ensures Resolves(later, p, e)
    {
      SettledResolves(first, later, p, e);
    }
    IdleExactly(later, p);
    CloseLeavesFiles(later, p);
    OtherFile(later, again, p);
  }

  lemma ImportedNames(w: World, p: Pack, read: World, first: World)
    requires ImportClose(w, p) == Some(read) && first == read.(files := first.files)
    ensures Named(first, p) && forall e :: e in p.reversals ==> Settled(first, p, e)
  {
    hide ImportClose, Find, FindAccrual, NamesAccrual, NamesAllocation;
    ImportLeaves(w, p, read);
  }

  lemma CloseLeavesFiles(w: World, p: Pack)
    ensures ImportClose(w, p).Some? ==> ImportClose(w, p).value.files == w.files
  {
    hide ImportClose;
    CloseRemembers(w, p);
  }

  lemma OtherFile(w: World, file: string, p: Pack)
    requires ImportClose(w, p).Some? && ImportClose(w, p).value.files == w.files
    ensures Apply(w, CloseFacts(file, p)) == w.(files := w.files + {file}) <==>
              file in w.files || ImportClose(w, p) == Some(w)
  {
    hide ImportClose;
    var next := ImportClose(w, p).value;
    if file in w.files {
      assert w.files + {file} == w.files;
    } else if Apply(w, CloseFacts(file, p)) == w.(files := w.files + {file}) {
      assert next.(files := w.files + {file}) == w.(files := w.files + {file});
      assert next == w;
    }
  }
}
