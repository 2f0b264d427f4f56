/**
 What reversals take from allocations.  The import of close facts checks neither the sign nor the size of a
 reversal, and a supersession leaves the reversals of the superseded allocation where they are.
 */
module AllocationBalances {
  import opened Options
  import opened Sequences
  import P = PeriodCloseRules
  import PeriodCloseTheorems
  import opened ItemAllocations
  import opened ItemAllocationTheorems

  /** No allocation's reversals take more than it has. */
  ghost predicate WithinAllocations(w: World) {
    forall a :: a in w.allocations ==> P.Consumed(w.reversals, a.id) <= a.quantity
  }

  // ---- One reversal ----

  /** The entry is no repeat, so the import books it. */
  predicate Books(w: World, p: Pack, e: ReversalEntry) {
    && AccrualOf(w, p, e).Some? && AllocationOf(w, p, e).Some?
    && !Reversed(w.reversals, AccrualOf(w, p, e).value, AllocationOf(w, p, e).value)
  }

  /** If the entry is booked, it fits what is then unclaimed of its allocation. */
  predicate Fits(w: World, p: Pack, e: ReversalEntry) {
    Books(w, p, e) ==> e.quantity <= P.Unclaimed(w.reversals, AsRead(w.allocations[AllocationOf(w, p, e).value]))
  }

  lemma BookReversalWithin(w: World, p: Pack, e: ReversalEntry)
    requires Numbered(w) && WithinAllocations(w) && BookReversal(w, p, e).Some?
    ensures Fits(w, p, e) <==> WithinAllocations(BookReversal(w, p, e).value)
    ensures Numbered(BookReversal(w, p, e).value)
  {
    hide AccrualOf, Find, NamesAllocation, P.Consumed, Reversed;
    if Books(w, p, e) {
      var next := BookReversal(w, p, e).value;
      var target := AllocationOf(w, p, e).value;
      var r := P.Reversal(AccrualOf(w, p, e).value, target, e.quantity, e.cost);
      forall a | a in w.allocations
        ensures P.Consumed(next.reversals, a.id)
             == P.Consumed(w.reversals, a.id) + (if a.id == target then e.quantity else 0.0)
      {
        PeriodCloseTheorems.ConsumedAppend(w.reversals, r, a.id);
      }
      assert w.allocations[target] in w.allocations;
    }
  }

  // ---- A pack of them ----

  predicate EachFits(w: World, p: Pack, entries: seq<ReversalEntry>) {
    entries == []
    || var n := |entries| - 1;
       && EachFits(w, p, entries[..n])
       && (BookReversals(w, p, entries[..n]).Some? ==> Fits(BookReversals(w, p, entries[..n]).value, p, entries[n]))
  }

  ghost predicate WithinAfter(w: World, p: Pack, entries: seq<ReversalEntry>) {
    BookReversals(w, p, entries).Some? && WithinAllocations(BookReversals(w, p, entries).value)
  }

  /** After every entry the allocations are within their quantity, exactly when each entry booked fits. */
  lemma {:induction false} WithinThroughout(w: World, p: Pack, entries: seq<ReversalEntry>)
    requires Numbered(w) && WithinAllocations(w) && BookReversals(w, p, entries).Some?
    ensures EachFits(w, p, entries) <==> forall i :: 0 <= i <= |entries| ==> WithinAfter(w, p, entries[..i])
    ensures Numbered(BookReversals(w, p, entries).value)
  {
    hide WithinAllocations, Numbered, Fits, BookReversal;
    assert entries[..|entries|] == entries;
    if entries == [] {
    } else {
      var n := |entries| - 1;
      WithinThroughout(w, p, entries[..n]);
      forall i | 0 <= i <= n
        ensures entries[..n][..i] == entries[..i]
      {
      }
      if EachFits(w, p, entries[..n]) {
        assert entries[..n][..n] == entries[..n];
        assert WithinAfter(w, p, entries[..n]);
        BookReversalWithin(BookReversals(w, p, entries[..n]).value, p, entries[n]);
      } else {
        var i :| 0 <= i <= n && !WithinAfter(w, p, entries[..n][..i]);
        assert !WithinAfter(w, p, entries[..i]);
        BookedStaysNumbered(w, p, entries);
      }
    }
  }

  lemma {:induction false} BookedStaysNumbered(w: World, p: Pack, entries: seq<ReversalEntry>)
    requires Numbered(w) && BookReversals(w, p, entries).Some?
    ensures Numbered(BookReversals(w, p, entries).value)
  {
    hide Settled;
    BookReversalsSettle(w, p, entries);
  }

  /** With no negative quantity among the entries, the end decides: what has been overdrawn stays overdrawn. */
  lemma {:induction false} WithinAtTheEnd(w: World, p: Pack, entries: seq<ReversalEntry>)
    requires Numbered(w) && WithinAllocations(w) && BookReversals(w, p, entries).Some?
    requires forall e :: e in entries ==> e.quantity >= 0.0
    ensures EachFits(w, p, entries) <==> WithinAfter(w, p, entries)
  {
    hide WithinAllocations, Numbered, Fits, BookReversal;
    if entries == [] {
    } else {
      var n := |entries| - 1;
      var front := BookReversals(w, p, entries[..n]).value;
      WithinAtTheEnd(w, p, entries[..n]);
      BookedStaysNumbered(w, p, entries[..n]);
      if WithinAllocations(front) {
        BookReversalWithin(front, p, entries[n]);
      } else {
        assert entries[n] in entries;
        OverdrawnStays(front, p, entries[n]);
      }
    }
  }

  lemma OverdrawnStays(w: World, p: Pack, e: ReversalEntry)
    requires !WithinAllocations(w) && e.quantity >= 0.0 && BookReversal(w, p, e).Some?
    ensures !WithinAllocations(BookReversal(w, p, e).value)
  {
    hide AccrualOf, AllocationOf, P.Consumed, Reversed;
    var next := BookReversal(w, p, e).value;
    var a :| a in w.allocations && P.Consumed(w.reversals, a.id) > a.quantity;
    if next != w {
      var r := next.reversals[|w.reversals|];
      PeriodCloseTheorems.ConsumedAppend(w.reversals, r, a.id);
    }
  }

  /** The world a close-fact pack finds when its reversals are reached. */
  function Placing(w: World, p: Pack): Option<World> {
    match BookAccruals(w, p.accruals)
    case None => None
    case Some(booked) => AllocateEntries(booked, p.allocations)
  }

  /** Every reversal the pack books fits. */
  predicate PackFits(w: World, p: Pack) {
    Placing(w, p).Some? ==> EachFits(Placing(w, p).value, p, p.reversals)
  }

  /** An allocation the pack makes has nothing to be reversed yet, so it starts within its quantity. */
  lemma PlacingKeepsWithin(w: World, p: Pack)
    requires Sound(w) && Anchored(w) && WithinAllocations(w) && Placing(w, p).Some?
    ensures var v := Placing(w, p).value; Numbered(v) && WithinAllocations(v) && v.reversals == w.reversals
  {
    hide BookAccruals, AllocateEntries, WithinLine, StatusKept, P.Consumed;
    BookAccrualsKeep(w, p.accruals);
    var booked := BookAccruals(w, p.accruals).value;
    AllocateEntriesKeep(booked, p.allocations);
    var v := Placing(w, p).value;
    forall a | a in v.allocations
      ensures P.Consumed(v.reversals, a.id) <= a.quantity
    {
      assert Rightful(v, a);
      if a !in w.allocations {
        NotYetConsumed(w, a.id);
      }
    }
  }

  lemma NotYetConsumed(w: World, allocation: nat)
    requires Anchored(w) && allocation >= |w.allocations|
    ensures P.Consumed(w.reversals, allocation) == 0.0
  {
    KeepNone(w.reversals, (r: P.Reversal) => r.allocation == allocation);
  }

  /** An import that fits leaves every allocation within its quantity; and, unless it books a negative quantity, one
      that does not fit leaves one overdrawn. */
  lemma ImportWithinExactly(w: World, p: Pack)
    requires Sound(w) && Anchored(w) && WithinAllocations(w) && ImportClose(w, p).Some?
    ensures PackFits(w, p) ==> WithinAllocations(ImportClose(w, p).value)
    ensures (forall e :: e in p.reversals ==> e.quantity >= 0.0) ==>
              (WithinAllocations(ImportClose(w, p).value) <==> PackFits(w, p))
  {
    hide Sound, Anchored, BookAccruals, AllocateEntries, BookReversals, Restated, Touched, Numbered, EachFits;
    PlacingKeepsWithin(w, p);
    var placed := Placing(w, p).value;
    var done := BookReversals(placed, p, p.reversals).value;
    RestatingMovesNothing(done, Touched(done.reversals, |w.reversals|));
    WithinThroughout(placed, p, p.reversals);
    assert p.reversals[..|p.reversals|] == p.reversals;
    assert EachFits(placed, p, p.reversals) ==> WithinAfter(placed, p, p.reversals[..|p.reversals|]);
    if forall e :: e in p.reversals ==> e.quantity >= 0.0 {
      WithinAtTheEnd(placed, p, p.reversals);
    }
  }

  lemma RestatingMovesNothing(w: World, touched: set<nat>)
    ensures WithinAllocations(Restated(w, touched)) <==> WithinAllocations(w)
  {
  }

  // ---- Whole runs ----

  /** The action reads a file of close facts and books what it says. */
  predicate Imports(w: World, a: Action) {
    a.CloseFacts? && a.file !in w.files && ImportClose(w, a.pack).Some?
  }

  predicate ActionFits(w: World, a: Action) { Imports(w, a) ==> PackFits(w, a.pack) }

  lemma ActionKeepsWithin(w: World, a: Action)
    requires Sound(w) && Anchored(w) && WithinAllocations(w) && ActionFits(w, a)
    ensures WithinAllocations(Apply(w, a))
  {
    hide Sound, AllocateEntries, ImportClose, Validate, SupersedeRefusal, P.Consumed, PackFits;
    var next := Apply(w, a);
    if Imports(w, a) {
      ImportWithinExactly(w, a.pack);
    } else {
      OnlyNewAllocations(w, a);
      forall x | x in next.allocations
        ensures P.Consumed(next.reversals, x.id) <= x.quantity
      {
        ActionKeepsSound(w, a);
        SoundRow(next, x);
        if x.id >= |w.allocations| {
          NotYetConsumed(w, x.id);
        } else {
          SoundId(w, x.id);
        }
      }
    }
  }

  lemma SoundRow(w: World, a: Allocation)
    requires Sound(w) && a in w.allocations
    ensures a.id < |w.allocations| && w.allocations[a.id] == a && a.quantity > 0.0
  {
    hide WithinLine, StatusKept, ConfirmedFor;
    assert Rightful(w, a);
  }

  lemma SoundId(w: World, id: nat)
    requires Sound(w) && id < |w.allocations|
    ensures w.allocations[id].id == id && w.allocations[id] in w.allocations
  {
  }

  /** An action that imports no close facts reverses nothing and resizes no allocation. */
  lemma OnlyNewAllocations(w: World, a: Action)
    requires Sound(w) && Anchored(w) && !Imports(w, a)
    ensures var next := Apply(w, a);
            && next.reversals == w.reversals && |w.allocations| <= |next.allocations|
            && forall i :: 0 <= i < |w.allocations| ==> next.allocations[i].quantity == w.allocations[i].quantity
  {
    hide Sound, AllocateEntries, ImportClose, Validate, SupersedeRefusal;
    match a
    case FactPack(entries) => AllocateEntriesKeep(w, entries);
    case Replace(r) => SupersedeTargets(w, r);
    case _ =>
  }

  lemma SupersedeTargets(w: World, r: Replacement)
    ensures SupersedeRefusal(w, r).None? ==> r.target < |w.allocations|
  {
  }

  /** Over a run whose imports all fit, no allocation is ever overdrawn. */
  lemma {:induction false} RunWithin(actions: seq<Action>)
    requires forall i :: 0 <= i < |actions| ==> ActionFits(Run(EMPTY, actions[..i]), actions[i])
    ensures WithinAllocations(Run(EMPTY, actions))
  {
    if actions == [] {
    } else {
      hide Apply, ActionFits, WithinAllocations, Sound, Anchored;
      var n := |actions| - 1;
      forall i | 0 <= i < n
        ensures ActionFits(Run(EMPTY, actions[..n][..i]), actions[..n][i])
      {
        assert actions[..n][..i] == actions[..i];
      }
      RunWithin(actions[..n]);
      EveryRunIsSound(actions[..n]);
      ActionKeepsWithin(Run(EMPTY, actions[..n]), actions[n]);
    }
  }

  // ---- A run that overdraws ----

  const SETUP: seq<Action> :=
    [AddLine(0, Line(0, Some(10.0), 5.0)), AddItem(0, 0), Confirm(P.InvoiceAllocation(0, 0, true))]

  const LAID_OUT := World(
    map[0 := Line(0, Some(10.0), 5.0)], map[0 := 0], [P.InvoiceAllocation(0, 0, true)], [], {}, {}, [], [])

  const FIRST_FILE := "a"
  const SECOND_FILE := "b"
  const BOOKED := P.Accrual(0, 0, 40.0, 40.0, 0)
  const PLACED := Allocation(0, 0, 0, 10.0, 5.0, None)

  /** An accrual, an allocation of the whole line, and a reversal of the given quantity. */
  function ReversingPack(quantity: real): Pack {
    Pack([AccrualEntry(Some(0), "p", 40.0, 40.0, 0)], [AllocationEntry(Some(0), Some(0), 10.0, 5.0)],
         [ReversalEntry(Some(0), Some(0), "p", quantity, 1.0)])
  }

  function AfterReversing(quantity: real): World {
    var reversals := [P.Reversal(0, 0, quantity, 1.0)];
    LAID_OUT.(allocations := [PLACED], reversals := reversals,
              accruals := [Booked(BOOKED, "p", StatusNow(reversals, BOOKED))])
  }

  lemma SetupLaysOut()
    ensures Run(EMPTY, SETUP) == LAID_OUT
  {
    assert SETUP[..3] == SETUP && SETUP[..2][..1] == SETUP[..1] && SETUP[..1][..0] == [];
    assert Run(EMPTY, SETUP[..1]) == Apply(EMPTY, SETUP[0]);
    assert Run(EMPTY, SETUP[..2]) == Apply(Run(EMPTY, SETUP[..1]), SETUP[1]);
  }

  lemma ReversingImports(quantity: real)
    ensures ImportClose(LAID_OUT, ReversingPack(quantity)) == Some(AfterReversing(quantity))
  {
    hide StatusNow, BookAccruals, AllocateEntries, BookReversals, Restated, Touched;
    var p := ReversingPack(quantity);
    var booked := LAID_OUT.(accruals := [Booked(BOOKED, "p", P.Active)]);
    var placed := booked.(allocations := [PLACED]);
    var done := placed.(reversals := AfterReversing(quantity).reversals);
    assert p.accruals == [p.accruals[0]] && p.allocations == [p.allocations[0]] && p.reversals == [p.reversals[0]];
    OneAccrual(LAID_OUT, p.accruals[0]);
    assert BookAccrual(LAID_OUT, p.accruals[0]).value.accruals == booked.accruals;
    OneAllocation(booked, p.allocations[0]);
    assert booked.confirmations[0] in booked.confirmations;
    assert Used(booked.allocations, 0) == 0.0;
    assert AllocateEntry(booked, p.allocations[0]).value.allocations == placed.allocations;
    OneReversal(placed, p, p.reversals[0]);
    PlacesFound(placed, p);
    assert Find(placed.allocations, 0, 0) == Some(0);
    assert BookReversal(placed, p, p.reversals[0]).value.reversals == done.reversals;
    Restates(done, AfterReversing(quantity));
  }

  lemma Restates(w: World, next: World)
    requires |w.reversals| == 1 && w.reversals[0].accrual == 0
    requires |w.accruals| == 1 && w.accruals[0].accrual.id == 0
    requires next == w.(accruals := [w.accruals[0].(status := StatusNow(w.reversals, w.accruals[0].accrual))])
    ensures Restated(w, Touched(w.reversals, 0)) == next
  {
    hide StatusNow;
    assert w.reversals[0].accrual in Touched(w.reversals, 0);
    assert Restated(w, Touched(w.reversals, 0)).accruals == next.accruals;
  }

  lemma OneAccrual(w: World, e: AccrualEntry)
    ensures BookAccruals(w, [e]) == BookAccrual(w, e)
  {
    assert [e][..0] == [];
  }

  lemma OneAllocation(w: World, e: AllocationEntry)
    ensures AllocateEntries(w, [e]) == AllocateEntry(w, e)
  {
    assert [e][..0] == [];
  }

  lemma OneReversal(w: World, p: Pack, e: ReversalEntry)
    ensures BookReversals(w, p, [e]) == BookReversal(w, p, e)
  {
    assert [e][..0] == [];
  }

  /** The entries of the pack name its one accrual and the first current allocation of its line to its item. */
  lemma PlacesFound(w: World, p: Pack)
    requires |p.reversals| == 1 && p == ReversingPack(p.reversals[0].quantity)
    requires |w.accruals| == 1 && w.accruals[0].accrual == BOOKED && w.accruals[0].period == "p"
    ensures AccrualOf(w, p, p.reversals[0]) == Some(0)
    ensures AllocationOf(w, p, p.reversals[0]) == Find(w.allocations, 0, 0)
  {
    assert p.accruals[0] in p.accruals && p.allocations[0] in p.allocations;
    assert w.accruals[0] in w.accruals;
  }

  /** No size and no sign is refused: in a run of one import the reversal is on record whatever it is, and the
      allocation is overdrawn exactly when it exceeds the quantity allocated. */
  lemma ReversalNeverRefused(quantity: real)
    ensures var w := Run(EMPTY, SETUP + [CloseFacts(FIRST_FILE, ReversingPack(quantity))]);
            && w.reversals == [P.Reversal(0, 0, quantity, 1.0)]
            && (WithinAllocations(w) <==> quantity <= 10.0)
  {
    hide Run, Apply, ImportClose;
    SetupLaysOut();
    ReversingImports(quantity);
    RunThen(SETUP, CloseFacts(FIRST_FILE, ReversingPack(quantity)));
    ImportApplies(LAID_OUT, FIRST_FILE, ReversingPack(quantity));
    var w := AfterReversing(quantity);
    assert w.reversals[..0] == [];
    assert P.Consumed(w.reversals, 0) == quantity by {
      PeriodCloseTheorems.ConsumedAppend([], w.reversals[0], 0);
      assert [] + [w.reversals[0]] == w.reversals;
    }
    assert PLACED in w.allocations;
  }

  lemma RunThen(actions: seq<Action>, a: Action)
    ensures Run(EMPTY, actions + [a]) == Apply(Run(EMPTY, actions), a)
  {
    assert (actions + [a])[..|actions|] == actions;
  }

  lemma ImportApplies(w: World, file: string, p: Pack)
    requires file !in w.files && ImportClose(w, p).Some?
    ensures Apply(w, CloseFacts(file, p)) == ImportClose(w, p).value.(files := w.files + {file})
  {
  }

  // ---- Supersession and what was consumed ----

  function UnclaimedOf(w: World): Allocation -> real {
    (a: Allocation) => P.Unclaimed(w.reversals, AsRead(a))
  }

  /** What the current allocations of a line still offer to reversals. */
  function Claimable(w: World, line: nat): real { Total(OnLine(w.allocations, line), UnclaimedOf(w)) }

  function Beside(line: nat, target: nat): Allocation -> bool {
    (a: Allocation) => a.supersededBy.None? && a.invoiceItem == line && a.id != target
  }

  lemma {:induction false} TotalBeside(allocations: seq<Allocation>, line: nat, target: nat, weight: Allocation -> real)
    requires target < |allocations| && forall i :: 0 <= i < |allocations| ==> allocations[i].id == i
    requires allocations[target].supersededBy.None? && allocations[target].invoiceItem == line
    ensures Total(OnLine(allocations, line), weight)
         == Total(Keep(allocations, Beside(line, target)), weight) + weight(allocations[target])
  {
    hide OnLine, Keep, Total;
    var n := |allocations| - 1;
    var front, last := allocations[..n], allocations[n];
    KeepLast(allocations, Beside(line, target), weight);
    OnLineLast(allocations, line, weight);
    if target == n {
      OnLineIsBeside(front, line, target);
    } else {
      TotalBeside(front, line, target, weight);
    }
  }

  lemma KeepLast(s: seq<Allocation>, f: Allocation -> bool, weight: Allocation -> real)
    requires s != []
    ensures var n := |s| - 1;
        Total(Keep(s, f), weight) == Total(Keep(s[..n], f), weight) + (if f(s[n]) then weight(s[n]) else 0.0)
  {
    if f(s[|s| - 1]) {
      PeriodCloseTheorems.TotalAppend(Keep(s[..|s| - 1], f), s[|s| - 1], weight);
    } else {
      assert Keep(s[..|s| - 1], f) + [] == Keep(s[..|s| - 1], f);
    }
  }

  lemma OnLineLast(s: seq<Allocation>, line: nat, weight: Allocation -> real)
    requires s != []
    ensures var n := |s| - 1;
            Total(OnLine(s, line), weight) == Total(OnLine(s[..n], line), weight)
              + (if s[n].supersededBy.None? && s[n].invoiceItem == line then weight(s[n]) else 0.0)
  {
    KeepLast(s, (a: Allocation) => a.supersededBy.None? && a.invoiceItem == line, weight);
  }

  lemma OnLineIsBeside(s: seq<Allocation>, line: nat, target: nat)
    requires forall a :: a in s ==> a.id != target
    ensures OnLine(s, line) == Keep(s, Beside(line, target))
  {
    KeepAgrees(s, (a: Allocation) => a.supersededBy.None? && a.invoiceItem == line, Beside(line, target));
  }

  /** What the superseded allocation had consumed is offered once more: the line gains the change in quantity and
      all that was reversed against the old allocation.  So a replacement of the same size changes nothing exactly
      when nothing was reversed yet. */
  lemma SupersessionOffersConsumedAgain(w: World, r: Replacement)
    requires Sound(w) && Anchored(w) && Supersede(w, r).Done?
    ensures var was, next := w.allocations[r.target], Supersede(w, r).world;
            Claimable(next, was.invoiceItem) - Claimable(w, was.invoiceItem)
              == (r.quantity - was.quantity) + P.Consumed(w.reversals, r.target)
  {
    hide OnLine, WithinLine, StatusKept, Rightful, P.Consumed, Guarded, UsedBeside;
    var was, id := w.allocations[r.target], |w.allocations|;
    var line := was.invoiceItem;
    var next := Allocation(id, line, was.item, r.quantity, r.net, None);
    TotalBeside(w.allocations, line, r.target, UnclaimedOf(w));
    RetiredUse(w.allocations, r.target, id, line);
    SameKept(w.allocations, line, r.target);
    UsedNext(Retire(w.allocations, r.target, id), next, line);
    PeriodCloseTheorems.TotalAppend(OnLine(Retire(w.allocations, r.target, id), line), next, UnclaimedOf(w));
    NotYetConsumed(w, id);
  }

  lemma SameKept(allocations: seq<Allocation>, line: nat, target: nat)
    ensures Keep(allocations, Beside(line, target))
         == Keep(allocations, (a: Allocation) => a.supersededBy.None? && a.invoiceItem == line && a.id != target)
  {
    KeepAgrees(allocations, Beside(line, target),
               (a: Allocation) => a.supersededBy.None? && a.invoiceItem == line && a.id != target);
  }

  const LIKE_FOR_LIKE := Replacement(0, Fresh, 10.0, 5.0)
  const REPLACED: seq<Allocation> := [PLACED.(supersededBy := Some(1)), Allocation(1, 0, 0, 10.0, 5.0, None)]
  const AFTER_REPLACING := AfterReversing(10.0).(allocations := REPLACED, files := {FIRST_FILE})
  const TWICE: seq<P.Reversal> := [P.Reversal(0, 0, 10.0, 1.0), P.Reversal(0, 1, 10.0, 1.0)]

  lemma ReplacementApplies()
    ensures Supersede(AfterReversing(10.0).(files := {FIRST_FILE}), LIKE_FOR_LIKE) == Done(AFTER_REPLACING)
  {
    hide StatusNow, UsedBeside, ConfirmedFor;
    var w := AfterReversing(10.0).(files := {FIRST_FILE});
    NothingBeside();
    assert ConfirmedFor(w.confirmations, 0, 0) by {
      LineConfirmed();
    }
    assert WithReplacement(w, LIKE_FOR_LIKE).allocations == REPLACED;
  }

  lemma NothingBeside()
    ensures UsedBeside([PLACED], 0, 0) == 0.0
  {
    KeepNone([PLACED], (a: Allocation) => a.supersededBy.None? && a.invoiceItem == 0 && a.id != 0);
  }

  lemma LineConfirmed()
    ensures ConfirmedFor(LAID_OUT.confirmations, 0, 0)
  {
    assert LAID_OUT.confirmations[0] in LAID_OUT.confirmations;
  }

  lemma ImportsAgain()
    ensures ImportClose(AFTER_REPLACING, ReversingPack(10.0)).Some?
    ensures ImportClose(AFTER_REPLACING, ReversingPack(10.0)).value.reversals == TWICE
    ensures ImportClose(AFTER_REPLACING, ReversingPack(10.0)).value.allocations == REPLACED
  {
    hide StatusNow, BookAccruals, AllocateEntries, BookReversals, Restate, Touched, AccrualOf, AllocationOf;
    var w, p := AFTER_REPLACING, ReversingPack(10.0);
    assert p.accruals == [p.accruals[0]] && p.allocations == [p.allocations[0]] && p.reversals == [p.reversals[0]];
    assert w.accruals[0] in w.accruals;
    OneAccrual(w, p.accruals[0]);
    OneAllocation(w, p.allocations[0]);
    assert REPLACED[..1] == [REPLACED[0]];
    assert Find(REPLACED, 0, 0) == Some(1);
    PlacesFound(w, p);
    OneReversal(w, p, p.reversals[0]);
    assert BookReversal(w, p, p.reversals[0]).value.reversals == TWICE;
  }

  /** The entries of a pack, a like-for-like replacement of its allocation, and the same entries again in another
      file: the reversal is not settled by then, is booked a second time against the replacement, and twice the line's
      quantity is reversed. */
  lemma ReversedTwiceAroundReplacement()
    ensures var p := ReversingPack(10.0);
            var w := Run(EMPTY, SETUP + [CloseFacts(FIRST_FILE, p)] + [Replace(LIKE_FOR_LIKE)]
                                + [CloseFacts(SECOND_FILE, p)]);
            w.reversals == TWICE && w.allocations == REPLACED && w.lines == LAID_OUT.lines
  {
    hide Run, ImportClose, Supersede, Apply, AfterReversing;
    var p := ReversingPack(10.0);
    var first := AfterReversing(10.0).(files := {FIRST_FILE});
    SetupLaysOut();
    ReversingImports(10.0);
    RunThen(SETUP, CloseFacts(FIRST_FILE, p));
    ImportApplies(LAID_OUT, FIRST_FILE, p);
    assert LAID_OUT.files + {FIRST_FILE} == {FIRST_FILE};
    ReplacementApplies();
    ReplacementRuns(first, LIKE_FOR_LIKE);
    RunThen(SETUP + [CloseFacts(FIRST_FILE, p)], Replace(LIKE_FOR_LIKE));
    ImportsAgain();
    RunThen(SETUP + [CloseFacts(FIRST_FILE, p)] + [Replace(LIKE_FOR_LIKE)], CloseFacts(SECOND_FILE, p));
    ImportApplies(AFTER_REPLACING, SECOND_FILE, p);
    ReplacedLines();
    RunRemembersLines(AFTER_REPLACING, p);
  }

  lemma ReplacementRuns(w: World, r: Replacement)
    ensures Apply(w, Replace(r)) == if Supersede(w, r).Done? then Supersede(w, r).world else w
  {
  }

  lemma ReplacedLines()
    ensures AFTER_REPLACING.lines == LAID_OUT.lines
  {
  }

  lemma RunRemembersLines(w: World, p: Pack)
    ensures ImportClose(w, p).Some? ==> ImportClose(w, p).value.lines == w.lines
  {
    hide BookAccruals, AllocateEntries, BookReversals, OnBooks, Placed, Settled;
    if ImportClose(w, p).Some? {
      var booked := BookAccruals(w, p.accruals).value;
      BookAccrualsBook(w, p.accruals);
      AllocateEntriesPlace(booked, p.allocations);
      BookReversalsSettle(AllocateEntries(booked, p.allocations).value, p, p.reversals);
    }
  }
}
