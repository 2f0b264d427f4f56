/** What every run of the writers of item allocations keeps. */
module ItemAllocationTheorems {
  import opened Options
  import opened Sequences
  import P = PeriodCloseRules
  import opened ItemAllocations

  // ---- What holds of every allocation and line ----

  ghost predicate Rightful(w: World, a: Allocation) {
    && a.invoiceItem in w.lines && a.item in w.items
    && ConfirmedFor(w.confirmations, w.lines[a.invoiceItem].invoice, w.items[a.item])
    && w.lines[a.invoiceItem].quantity.Some?
    && a.quantity > 0.0 && 0.0 <= a.net <= w.lines[a.invoiceItem].net
  }

  /** What is allocated of a line, if anything is, stays within its quantity. */
  ghost predicate WithinLine(w: World, line: nat) {
    OnLine(w.allocations, line) != [] ==>
      && line in w.lines && w.lines[line].quantity.Some?
      && Used(w.allocations, line) <= w.lines[line].quantity.value
  }

  ghost predicate Numbered(w: World) {
    && (forall i :: 0 <= i < |w.allocations| ==> w.allocations[i].id == i)
    && (forall i :: 0 <= i < |w.accruals| ==> w.accruals[i].accrual.id == i)
  }

  ghost predicate OneAccrualPerPeriod(w: World) {
    forall i, j :: 0 <= i < j < |w.accruals| ==>
      w.accruals[i].accrual.item != w.accruals[j].accrual.item || w.accruals[i].period != w.accruals[j].period
  }

  ghost predicate OneReversalPerAllocation(w: World) {
    forall i, j :: 0 <= i < j < |w.reversals| ==>
      w.reversals[i].accrual != w.reversals[j].accrual || w.reversals[i].allocation != w.reversals[j].allocation
  }

  /** An accrual with reversals on record carries the status its balance gives. */
  ghost predicate StatusKept(w: World, b: Booked) {
    P.ReversalsOf(w.reversals, b.accrual.id) != [] ==> b.status == StatusNow(w.reversals, b.accrual)
  }

  /** A superseded allocation names a later one of the same line and item, and no two name the same one. */
  ghost predicate Lineage(w: World) {
    && (forall i :: 0 <= i < |w.allocations| && w.allocations[i].supersededBy.Some? ==>
          var successor := w.allocations[i].supersededBy.value;
          && i < successor < |w.allocations|
          && w.allocations[successor].invoiceItem == w.allocations[i].invoiceItem
          && w.allocations[successor].item == w.allocations[i].item)
    && (forall i, j :: 0 <= i < j < |w.allocations| && w.allocations[i].supersededBy.Some? ==>
          w.allocations[i].supersededBy != w.allocations[j].supersededBy)
  }

  ghost predicate Sound(w: World) {
    && (forall a :: a in w.allocations ==> Rightful(w, a))
    && (forall line :: WithinLine(w, line))
    && Lineage(w)
    && Numbered(w) && OneAccrualPerPeriod(w) && OneReversalPerAllocation(w)
    && (forall b :: b in w.accruals ==> StatusKept(w, b))
  }

  /** Reversals name booked accruals and recorded allocations. */
  ghost predicate Anchored(w: World) {
    forall r :: r in w.reversals ==> r.accrual < |w.accruals| && r.allocation < |w.allocations|
  }

  // ---- Adding one allocation ----

  lemma UsedNext(allocations: seq<Allocation>, a: Allocation, line: nat)
    requires a.supersededBy.None?
    ensures OnLine(allocations + [a], line) == OnLine(allocations, line) + (if a.invoiceItem == line then [a] else [])
    ensures Used(allocations + [a], line)
      == Used(allocations, line) + (if a.invoiceItem == line then a.quantity else 0.0)
  {
    assert (allocations + [a])[..|allocations|] == allocations;
    if a.invoiceItem == line {
      assert (OnLine(allocations, line) + [a])[..|OnLine(allocations, line)|] == OnLine(allocations, line);
    } else {
      assert OnLine(allocations, line) + [] == OnLine(allocations, line);
    }
  }

  lemma AllocationKeepsLines(w: World, line: nat, item: nat, quantity: real, net: real)
    requires line in w.lines && item in w.items && Validate(w, line, item, quantity, net).None?
      && forall l :: WithinLine(w, l)
    ensures forall l :: WithinLine(WithAllocation(w, line, item, quantity, net), l)
  {
    hide OnLine, Used, ConfirmedFor;
    var a := Allocation(|w.allocations|, line, item, quantity, net, None);
    forall l: nat
      ensures WithinLine(WithAllocation(w, line, item, quantity, net), l)
    {
      UsedNext(w.allocations, a, l);
      assert WithinLine(w, l);
    }
  }

  /** The guard is enough: what it lets through keeps every line within its quantity and every allocation rightful. */
  lemma AllocationKeepsSound(w: World, line: nat, item: nat, quantity: real, net: real)
    requires Sound(w) && line in w.lines && item in w.items && Validate(w, line, item, quantity, net).None?
    ensures Sound(WithAllocation(w, line, item, quantity, net))
  {
    hide WithinLine, StatusKept, OnLine, Used, ConfirmedFor;
    AllocationKeepsLines(w, line, item, quantity, net);
    var next := WithAllocation(w, line, item, quantity, net);
    forall b | b in next.accruals
      ensures StatusKept(next, b)
    {
      SameReversalsSameStatus(w, next, b);
    }
  }

  lemma SameReversalsSameStatus(w: World, next: World, b: Booked)
    requires w.reversals == next.reversals && StatusKept(w, b)
    ensures StatusKept(next, b)
  {
  }

  /** And it is exact: a request it refuses would break the line or the rules for one allocation. */
  lemma RefusedWouldBreak(w: World, line: nat, item: nat, quantity: real, net: real)
    requires Sound(w) && line in w.lines && item in w.items && Validate(w, line, item, quantity, net).Some?
    ensures !Sound(WithAllocation(w, line, item, quantity, net))
  {
    hide OnLine, Used, ConfirmedFor, StatusKept;
    var next := WithAllocation(w, line, item, quantity, net);
    var a := next.allocations[|w.allocations|];
    assert a in next.allocations;
    UsedNext(w.allocations, a, line);
    assert Sound(next) ==> Rightful(next, a) && WithinLine(next, line);
  }

  // ---- Every action keeps soundness ----

  /** Retiring a current allocation leaves of its line what the others use. */
  lemma {:induction false} RetiredUse(allocations: seq<Allocation>, target: nat, successor: nat, line: nat)
    requires target < |allocations| && forall i :: 0 <= i < |allocations| ==> allocations[i].id == i
    ensures OnLine(Retire(allocations, target, successor), line)
         == Keep(allocations, (a: Allocation) => a.supersededBy.None? && a.invoiceItem == line && a.id != target)
  {
    var n := |allocations| - 1;
    var beside := (a: Allocation) => a.supersededBy.None? && a.invoiceItem == line && a.id != target;
    if target == n {
      assert Retire(allocations, target, successor)[..n] == allocations[..n];
      KeepAgrees(allocations[..n], (a: Allocation) => a.supersededBy.None? && a.invoiceItem == line, beside);
    } else {
      RetiredUse(allocations[..n], target, successor, line);
      assert Retire(allocations, target, successor)[..n] == Retire(allocations[..n], target, successor);
    }
  }

  /** Elsewhere nothing changes. */
  lemma RetiredUseElsewhere(allocations: seq<Allocation>, target: nat, successor: nat, line: nat)
    requires target < |allocations| && forall i :: 0 <= i < |allocations| ==> allocations[i].id == i
    requires allocations[target].invoiceItem != line
    ensures OnLine(Retire(allocations, target, successor), line) == OnLine(allocations, line)
  {
    RetiredUse(allocations, target, successor, line);
    KeepAgrees(allocations, (a: Allocation) => a.supersededBy.None? && a.invoiceItem == line,
               (a: Allocation) => a.supersededBy.None? && a.invoiceItem == line && a.id != target);
  }

  lemma SupersessionKeepsLines(w: World, r: Replacement)
    requires SupersedeRefusal(w, r).None? && Numbered(w) && forall l :: WithinLine(w, l)
    ensures forall l :: WithinLine(WithReplacement(w, r), l)
  {
    hide OnLine, Used, ConfirmedFor;
    var next := WithReplacement(w, r);
    var id := |w.allocations|;
    var a := next.allocations[id];
    forall l: nat
      ensures WithinLine(next, l)
    {
      UsedNext(Retire(w.allocations, r.target, id), a, l);
      assert WithinLine(w, l);
      if l == a.invoiceItem {
        ReplacementUse(w.allocations, r.target, id);
      } else {
        RetiredUseElsewhere(w.allocations, r.target, id, l);
        SameLineSameUse(Retire(w.allocations, r.target, id), w.allocations, l);
      }
    }
  }

  lemma ReplacementUse(allocations: seq<Allocation>, target: nat, successor: nat)
    requires target < |allocations| && forall i :: 0 <= i < |allocations| ==> allocations[i].id == i
    ensures var line := allocations[target].invoiceItem;
            Used(Retire(allocations, target, successor), line) == UsedBeside(allocations, line, target)
  {
    RetiredUse(allocations, target, successor, allocations[target].invoiceItem);
  }

  lemma SameLineSameUse(a: seq<Allocation>, b: seq<Allocation>, line: nat)
    requires OnLine(a, line) == OnLine(b, line)
    ensures Used(a, line) == Used(b, line)
  {
  }

  /** Supersession is a fourth writer under the same guard: lines stay within their quantity, counted over what is
      current, and the lineage does not fork. */
  lemma SupersessionKeepsSound(w: World, r: Replacement)
    requires Sound(w) && Anchored(w) && Supersede(w, r).Done?
    ensures Sound(Supersede(w, r).world) && Anchored(Supersede(w, r).world)
  {
    hide WithinLine, StatusKept, OnLine, Used, UsedBeside, ConfirmedFor;
    SupersessionKeepsLines(w, r);
    var next := WithReplacement(w, r);
    SupersessionKeepsLineage(w, r);
    forall b | b in next.accruals
      ensures StatusKept(next, b)
    {
      SameReversalsSameStatus(w, next, b);
    }
    forall a | a in next.allocations
      ensures Rightful(next, a)
    {
      SupersessionKeepsRights(w, r, a);
    }
  }

  /** And the guard is exact here too: a replacement it refuses would break the line or the rules for one. */
  lemma RefusedReplacementWouldBreak(w: World, r: Replacement)
    requires Sound(w) && r.target < |w.allocations| && w.allocations[r.target].supersededBy.None? && r.evidence.Fresh?
    requires SupersedeRefusal(w, r).Some?
    ensures !Sound(WithReplacement(w, r))
  {
    hide OnLine, Used, UsedBeside, ConfirmedFor, StatusKept, Lineage;
    assert Rightful(w, w.allocations[r.target]);
    var next := WithReplacement(w, r);
    var id := |w.allocations|;
    var a := next.allocations[id];
    assert a in next.allocations;
    ReplacementUse(w.allocations, r.target, id);
    UsedNext(Retire(w.allocations, r.target, id), a, a.invoiceItem);
    assert Sound(next) ==> Rightful(next, a) && WithinLine(next, a.invoiceItem);
  }

  lemma SupersessionKeepsLineage(w: World, r: Replacement)
    requires Lineage(w) && SupersedeRefusal(w, r).None?
    ensures Lineage(WithReplacement(w, r))
  {
    hide Guarded, UsedBeside;
  }

  lemma SupersessionKeepsRights(w: World, r: Replacement, a: Allocation)
    requires SupersedeRefusal(w, r).None? && (forall x :: x in w.allocations ==> Rightful(w, x))
    requires a in WithReplacement(w, r).allocations
    ensures Rightful(WithReplacement(w, r), a)
  {
    hide ConfirmedFor, UsedBeside;
    var next := WithReplacement(w, r);
    assert Rightful(w, w.allocations[r.target]);
    var i :| 0 <= i < |next.allocations| && next.allocations[i] == a;
    if i < |w.allocations| {
      assert Rightful(w, w.allocations[i]);
    }
  }

  lemma {:induction false} AllocateEntriesKeep(w: World, entries: seq<AllocationEntry>)
    requires Sound(w)
    ensures var r := AllocateEntries(w, entries);
            r.Some? ==>
              && Sound(r.value) && w.allocations <= r.value.allocations
              && r.value == w.(allocations := r.value.allocations)
  {
    if entries == [] {
    } else {
      hide Sound, Validate, Find;
      AllocateEntriesKeep(w, entries[..|entries| - 1]);
      var front := AllocateEntries(w, entries[..|entries| - 1]);
      if front.Some? {
        AllocateEntryKeeps(front.value, entries[|entries| - 1]);
      }
    }
  }

  lemma AllocateEntryKeeps(w: World, e: AllocationEntry)
    requires Sound(w)
    ensures var r := AllocateEntry(w, e);
            r.Some? ==>
              && Sound(r.value) && w.allocations <= r.value.allocations
              && r.value == w.(allocations := r.value.allocations)
  {
    hide Sound, Validate, Find;
    if AllocateEntry(w, e).Some? && Find(w.allocations, e.line.value, e.item.value).None? {
      AllocationKeepsSound(w, e.line.value, e.item.value, e.quantity, e.net);
    }
  }

  lemma BookAccrualKeeps(w: World, e: AccrualEntry)
    requires Sound(w) && (forall r :: r in w.reversals ==> r.accrual < |w.accruals|)
    ensures var r := BookAccrual(w, e);
            r.Some? ==> Sound(r.value) && w.accruals <= r.value.accruals && r.value == w.(accruals := r.value.accruals)
  {
    hide WithinLine, Rightful;
    var r := BookAccrual(w, e);
    if r.Some? && r.value != w {
      var next := r.value;
      var last := next.accruals[|w.accruals|];
      forall line
        ensures WithinLine(next, line)
      {
        SameLinesSameBounds(w, next, line);
      }
      forall a | a in next.allocations
        ensures Rightful(next, a)
      {
        SameLinesSameRights(w, next, a);
      }
      assert P.ReversalsOf(w.reversals, |w.accruals|) == [] by {
        NoReversalsYet(w, |w.accruals|);
      }
    }
  }

  lemma NoReversalsYet(w: World, accrual: nat)
    requires forall r :: r in w.reversals ==> r.accrual != accrual
    ensures P.ReversalsOf(w.reversals, accrual) == []
  {
    KeepNone(w.reversals, (r: P.Reversal) => r.accrual == accrual);
  }

  lemma SameLinesSameBounds(w: World, next: World, line: nat)
    requires WithinLine(w, line) && next.lines == w.lines && next.allocations == w.allocations
    ensures WithinLine(next, line)
  {
  }

  lemma SameLinesSameRights(w: World, next: World, a: Allocation)
    requires Rightful(w, a) && next.lines == w.lines && next.items == w.items && next.confirmations == w.confirmations
    ensures Rightful(next, a)
  {
  }

  lemma {:induction false} BookAccrualsKeep(w: World, entries: seq<AccrualEntry>)
    requires Sound(w) && Anchored(w)
    ensures var r := BookAccruals(w, entries);
            r.Some? ==>
              && Sound(r.value) && Anchored(r.value) && w.accruals <= r.value.accruals
              && r.value == w.(accruals := r.value.accruals)
  {
    if entries == [] {
    } else {
      hide Sound, FindAccrual;
      BookAccrualsKeep(w, entries[..|entries| - 1]);
      var front := BookAccruals(w, entries[..|entries| - 1]);
      if front.Some? {
        BookAccrualKeeps(front.value, entries[|entries| - 1]);
      }
    }
  }

  /** Sound but for statuses that a later pass restates. */
  ghost predicate SoundBut(w: World, touched: set<nat>) {
    && (forall a :: a in w.allocations ==> Rightful(w, a))
    && (forall line :: WithinLine(w, line))
    && Lineage(w)
    && Numbered(w) && OneAccrualPerPeriod(w) && OneReversalPerAllocation(w) && Anchored(w)
    && (forall b :: b in w.accruals && b.accrual.id !in touched ==> StatusKept(w, b))
  }

  lemma ReversalsOfNext(reversals: seq<P.Reversal>, r: P.Reversal, accrual: nat)
    requires r.accrual != accrual
    ensures P.ReversalsOf(reversals + [r], accrual) == P.ReversalsOf(reversals, accrual)
  {
    assert (reversals + [r])[..|reversals|] == reversals;
  }

  lemma BookReversalKeeps(w: World, p: Pack, e: ReversalEntry, before: nat)
    requires before <= |w.reversals| && SoundBut(w, Touched(w.reversals, before))
    ensures var r := BookReversal(w, p, e);
            r.Some? ==> before <= |r.value.reversals| && SoundBut(r.value, Touched(r.value.reversals, before))
                        && w.reversals <= r.value.reversals && r.value == w.(reversals := r.value.reversals)
  {
    hide WithinLine, Rightful, NamesAccrual, NamesAllocation, Find, FindAccrual, StatusNow, P.ReversalsOf;
    var r := BookReversal(w, p, e);
    if r.Some? && r.value != w {
      var next := r.value;
      var last := next.reversals[|w.reversals|];
      assert next.reversals == w.reversals + [last];
      forall line
        ensures WithinLine(next, line)
      {
        SameLinesSameBounds(w, next, line);
      }
      forall a | a in next.allocations
        ensures Rightful(next, a)
      {
        SameLinesSameRights(w, next, a);
      }
      TouchedNext(w.reversals, last, before);
      forall b | b in next.accruals && b.accrual.id !in Touched(next.reversals, before)
        ensures StatusKept(next, b)
      {
        ReversalsOfNext(w.reversals, last, b.accrual.id);
        SameOwnSameStatus(w, next, b);
      }
    }
  }

  lemma SameOwnSameStatus(w: World, next: World, b: Booked)
    requires StatusKept(w, b) && P.ReversalsOf(next.reversals, b.accrual.id) == P.ReversalsOf(w.reversals, b.accrual.id)
    ensures StatusKept(next, b)
  {
  }

  lemma TouchedNext(reversals: seq<P.Reversal>, r: P.Reversal, before: nat)
    requires before <= |reversals|
    ensures Touched(reversals + [r], before) == Touched(reversals, before) + {r.accrual}
  {
    var next := reversals + [r];
    forall x
      ensures x in Touched(next, before) <==> x in Touched(reversals, before) + {r.accrual}
    {
      if x in Touched(reversals, before) {
        var i :| before <= i < |reversals| && reversals[i].accrual == x;
        assert next[i].accrual == x;
      }
      if x == r.accrual {
        assert next[|reversals|].accrual == x;
      }
    }
  }

  lemma {:induction false} BookReversalsKeep(w: World, p: Pack, entries: seq<ReversalEntry>, before: nat)
    requires before <= |w.reversals| && SoundBut(w, Touched(w.reversals, before))
    ensures var r := BookReversals(w, p, entries);
            r.Some? ==> before <= |r.value.reversals| && SoundBut(r.value, Touched(r.value.reversals, before))
                        && w.reversals <= r.value.reversals && r.value == w.(reversals := r.value.reversals)
  {
    if entries == [] {
    } else {
      hide SoundBut, BookReversal;
      BookReversalsKeep(w, p, entries[..|entries| - 1], before);
      var front := BookReversals(w, p, entries[..|entries| - 1]);
      if front.Some? {
        BookReversalKeeps(front.value, p, entries[|entries| - 1], before);
      }
    }
  }

  lemma RestatedIsSound(w: World, touched: set<nat>)
    requires SoundBut(w, touched)
    ensures Sound(Restated(w, touched)) && Anchored(Restated(w, touched))
  {
    hide WithinLine, Rightful, StatusNow, P.ReversalsOf;
    var next := Restated(w, touched);
    forall line
      ensures WithinLine(next, line)
    {
      SameLinesSameBounds(w, next, line);
    }
    forall a | a in next.allocations
      ensures Rightful(next, a)
    {
      SameLinesSameRights(w, next, a);
    }
    forall b | b in next.accruals
      ensures StatusKept(next, b)
    {
      var i :| 0 <= i < |next.accruals| && next.accruals[i] == b;
      assert w.accruals[i] in w.accruals;
    }
  }

  lemma ImportCloseKeeps(w: World, p: Pack)
    requires Sound(w) && Anchored(w)
    ensures ImportClose(w, p).Some? ==> Sound(ImportClose(w, p).value) && Anchored(ImportClose(w, p).value)
  {
    hide Sound, Anchored, BookAccruals, AllocateEntries, BookReversals, SoundBut, Restated, Touched;
    BookAccrualsKeep(w, p.accruals);
    if ImportClose(w, p).Some? {
      var booked := BookAccruals(w, p.accruals).value;
      AllocateEntriesKeep(booked, p.allocations);
      var placed := AllocateEntries(booked, p.allocations).value;
      StartReversals(booked, placed);
      BookReversalsKeep(placed, p, p.reversals, |w.reversals|);
      var done := BookReversals(placed, p, p.reversals).value;
      RestatedIsSound(done, Touched(done.reversals, |w.reversals|));
    }
  }

  lemma ImportFileKeeps(w: World, file: string, p: Pack)
    requires Sound(w) && Anchored(w)
    ensures ImportFile(w, file, p).Some? ==>
              Sound(ImportFile(w, file, p).value) && Anchored(ImportFile(w, file, p).value)
  {
    hide Sound, Anchored, ImportClose;
    ImportCloseKeeps(w, p);
    if file !in w.files && ImportClose(w, p).Some? {
      GrowthKeepsSound(ImportClose(w, p).value, ImportFile(w, file, p).value);
    }
  }

  lemma StartReversals(w: World, next: World)
    requires Anchored(w) && Sound(next) && w.allocations <= next.allocations
      && next == w.(allocations := next.allocations)
    ensures SoundBut(next, Touched(next.reversals, |next.reversals|))
  {
    hide WithinLine, Rightful, StatusKept;
    assert Touched(next.reversals, |next.reversals|) == {};
  }

  lemma GrowthKeepsSound(w: World, next: World)
    requires Sound(w) && Anchored(w)
    requires next.allocations == w.allocations && next.accruals == w.accruals && next.reversals == w.reversals
    requires forall l :: l in w.lines ==> l in next.lines && next.lines[l] == w.lines[l]
    requires forall i :: i in w.items ==> i in next.items && next.items[i] == w.items[i]
    requires forall c :: c in w.confirmations ==> c in next.confirmations
    ensures Sound(next) && Anchored(next)
  {
    forall a | a in next.allocations
      ensures Rightful(next, a)
    {
      assert Rightful(w, a);
    }
    forall line
      ensures WithinLine(next, line)
    {
      assert WithinLine(w, line);
    }
    forall b | b in next.accruals
      ensures StatusKept(next, b)
    {
      assert StatusKept(w, b);
    }
  }

  lemma ManualKeeps(w: World, r: Request)
    requires Sound(w) && Anchored(w) && Manual(w, r).Done?
    ensures Sound(Manual(w, r).world) && Anchored(Manual(w, r).world)
  {
    hide Sound, Validate;
    var next := WithAllocation(w, r.line.value, r.item.value, r.quantity.value, r.net.value);
    AllocationKeepsSound(w, r.line.value, r.item.value, r.quantity.value, r.net.value);
    GrowthKeepsSound(next, Manual(w, r).world);
  }

  lemma ActionKeepsSound(w: World, a: Action)
    requires Sound(w) && Anchored(w)
    ensures Sound(Apply(w, a)) && Anchored(Apply(w, a))
  {
    hide Sound, Manual, AllocateEntries, ImportClose, SupersedeRefusal, WithReplacement;
    match a
    case AddLine(_, _) => GrowthKeepsSound(w, Apply(w, a));
    case AddItem(_, _) => GrowthKeepsSound(w, Apply(w, a));
    case Confirm(_) => GrowthKeepsSound(w, Apply(w, a));
    case Allocate(r) =>
      if Manual(w, r).Done? {
        ManualKeeps(w, r);
      }
    case Replace(r) =>
      if Supersede(w, r).Done? {
        SupersessionKeepsSound(w, r);
      }
    case FactPack(entries) => AllocateEntriesKeep(w, entries);
    case RecordFile(_) => GrowthKeepsSound(w, Apply(w, a));
    case CloseFacts(file, p) => ImportFileKeeps(w, file, p);
  }

  lemma {:induction false} EveryRunIsSound(actions: seq<Action>)
    ensures Sound(Run(EMPTY, actions)) && Anchored(Run(EMPTY, actions))
  {
    if actions == [] {
    } else {
      hide Sound, Apply, Anchored;
      EveryRunIsSound(actions[..|actions| - 1]);
      ActionKeepsSound(Run(EMPTY, actions[..|actions| - 1]), actions[|actions| - 1]);
    }
  }

  /** Whatever the four writers do, a line's current allocations stay within its quantity and inside a confirmed
      contract. */
  lemma LineCapacityAlways(actions: seq<Action>, line: nat)
    ensures var w := Run(EMPTY, actions);
            && (OnLine(w.allocations, line) != [] ==>
                  line in w.lines && w.lines[line].quantity.Some?
                    && Used(w.allocations, line) <= w.lines[line].quantity.value)
            && forall a :: a in OnLine(w.allocations, line) ==>
                 a.item in w.items && ConfirmedFor(w.confirmations, w.lines[line].invoice, w.items[a.item])
  {
    hide Run, Used, ConfirmedFor, StatusKept;
    EveryRunIsSound(actions);
    assert WithinLine(Run(EMPTY, actions), line);
  }

  // ---- Repeating a request or a pack ----

  lemma {:induction false} RunOn(w: World, before: seq<Action>, after: seq<Action>)
    ensures Run(w, before + after) == Run(Run(w, before), after)
  {
    hide Apply;
    if after == [] {
      assert before + after == before;
    } else {
      var n := |after| - 1;
      assert (before + after)[..|before| + n] == before + after[..n];
      RunOn(w, before, after[..n]);
    }
  }

  /** Lines, items, and the requests and files on record are never taken away. */
  ghost predicate Remembers(w: World, next: World) {
    && w.lines.Keys <= next.lines.Keys && w.items.Keys <= next.items.Keys
    && w.payloads <= next.payloads && w.files <= next.files
  }

  lemma ApplyRemembers(w: World, a: Action)
    ensures Remembers(w, Apply(w, a))
  {
    hide AllocateEntries, BookAccruals, BookReversals, Validate, SupersedeRefusal;
    match a
    case FactPack(entries) => EntriesRemember(w, entries);
    case CloseFacts(_, p) => CloseRemembers(w, p);
    case _ =>
  }

  lemma EntriesRemember(w: World, entries: seq<AllocationEntry>)
    ensures AllocateEntries(w, entries).Some? ==> Remembers(w, AllocateEntries(w, entries).value)
  {
    hide AllocateEntries, Placed;
    if AllocateEntries(w, entries).Some? {
      AllocateEntriesPlace(w, entries);
    }
  }

  lemma CloseRemembers(w: World, p: Pack)
    ensures ImportClose(w, p).Some? ==> Remembers(w, ImportClose(w, p).value)
    ensures ImportClose(w, p).Some? ==> ImportClose(w, p).value.files == w.files
  {
    hide AllocateEntries, BookAccruals, BookReversals, OnBooks, Placed, Settled, Touched;
    if ImportClose(w, p).Some? {
      var booked := BookAccruals(w, p.accruals).value;
      var placed := AllocateEntries(booked, p.allocations).value;
      BookAccrualsBook(w, p.accruals);
      AllocateEntriesPlace(booked, p.allocations);
      BookReversalsSettle(placed, p, p.reversals);
    }
  }

  lemma {:induction false} RunRemembers(w: World, actions: seq<Action>)
    ensures Remembers(w, Run(w, actions))
  {
    if actions == [] {
    } else {
      hide Apply;
      var n := |actions| - 1;
      RunRemembers(w, actions[..n]);
      ApplyRemembers(Run(w, actions[..n]), actions[n]);
    }
  }

  /** A request once recorded is refused as a duplicate in every later state, whatever came between. */
  lemma RepeatedRequestRefused(before: seq<Action>, after: seq<Action>, r: Request)
    requires Manual(Run(EMPTY, before), r).Done?
    ensures Manual(Run(EMPTY, before + [Allocate(r)] + after), r) == Refused(DuplicateRequest)
  {
    hide Validate, Run;
    var w := Run(EMPTY, before);
    var next := Run(w, [Allocate(r)]);
    RunOn(EMPTY, before, [Allocate(r)]);
    RunOn(EMPTY, before + [Allocate(r)], after);
    RunOne(w, Allocate(r));
    RunRemembers(next, after);
  }

  lemma RunOne(w: World, a: Action)
    ensures Run(w, [a]) == Apply(w, a)
  {
    assert [a][..0] == [];
  }

  /** Only the text counts: the same quantity written with another number of places is allocated again. */
  lemma RewrittenRequestPasses(w: World, r: Request, places: nat)
    requires Manual(w, r).Done? && places != r.quantity.places
    requires Payload(r.line.value, r.item.value, Written(r.quantity.value, places), r.net) !in w.payloads
    ensures var again := r.(quantity := Written(r.quantity.value, places));
            Manual(Manual(w, r).world, again).Done? <==>
            Used(w.allocations, r.line.value) + 2.0 * r.quantity.value <= w.lines[r.line.value].quantity.value
  {
    hide ConfirmedFor, Used;
    UsedNext(w.allocations,
             Allocation(|w.allocations|, r.line.value, r.item.value, r.quantity.value, r.net.value, None),
             r.line.value);
  }

  lemma {:induction false} FindStays(a: seq<Allocation>, b: seq<Allocation>, line: nat, item: nat)
    requires a <= b && Find(a, line, item).Some?
    ensures Find(b, line, item) == Find(a, line, item)
    decreases |b|
  {
    if |a| < |b| {
      assert a <= b[..|b| - 1];
      FindStays(a, b[..|b| - 1], line, item);
    } else {
      assert a == b;
    }
  }

  lemma {:induction false} FindAccrualStays(a: seq<Booked>, b: seq<Booked>, item: nat, period: string)
    requires a <= b && FindAccrual(a, item, period).Some?
    ensures FindAccrual(b, item, period) == FindAccrual(a, item, period)
    decreases |b|
  {
    if |a| < |b| {
      assert a <= b[..|b| - 1];
      FindAccrualStays(a, b[..|b| - 1], item, period);
    } else {
      assert a == b;
    }
  }

  /** Restating changes statuses only, so accruals are found where they were. */
  lemma {:induction false} FindAccrualRestated(a: seq<Booked>, b: seq<Booked>, item: nat, period: string)
    requires |a| == |b| && forall i :: 0 <= i < |a| ==> a[i].accrual == b[i].accrual && a[i].period == b[i].period
    ensures FindAccrual(a, item, period) == FindAccrual(b, item, period)
  {
    if a == [] {
    } else {
      FindAccrualRestated(a[..|a| - 1], b[..|b| - 1], item, period);
    }
  }

  ghost predicate Placed(w: World, e: AllocationEntry) {
    e.line.Some? && e.item.Some? && Find(w.allocations, e.line.value, e.item.value).Some?
  }

  lemma PlacedStays(w: World, next: World, e: AllocationEntry)
    requires Placed(w, e) && w.allocations <= next.allocations
    ensures Placed(next, e)
  {
    FindStays(w.allocations, next.allocations, e.line.value, e.item.value);
  }

  lemma AllocateEntryPlaces(w: World, e: AllocationEntry)
    requires AllocateEntry(w, e).Some?
    ensures Placed(AllocateEntry(w, e).value, e) && w.allocations <= AllocateEntry(w, e).value.allocations
    ensures AllocateEntry(w, e).value == w.(allocations := AllocateEntry(w, e).value.allocations)
  {
    var v := AllocateEntry(w, e).value;
    if v != w {
      assert v.allocations[|w.allocations|] in v.allocations;
    }
  }

  lemma {:induction false} AllocateEntriesPlace(w: World, entries: seq<AllocationEntry>)
    requires AllocateEntries(w, entries).Some?
    ensures var v := AllocateEntries(w, entries).value;
            && (forall e :: e in entries ==> Placed(v, e))
            && w.allocations <= v.allocations && v == w.(allocations := v.allocations)
  {
    hide Placed, AllocateEntry;
    if entries == [] {
    } else {
      var n := |entries| - 1;
      AllocateEntriesPlace(w, entries[..n]);
      var u, v := AllocateEntries(w, entries[..n]).value, AllocateEntries(w, entries).value;
      AllocateEntryPlaces(u, entries[n]);
      forall e | e in entries
        ensures Placed(v, e)
      {
        var i :| 0 <= i <= n && entries[i] == e;
        if i < n {
          assert entries[..n][i] in entries[..n];
          PlacedStays(u, v, e);
        }
      }
    }
  }

  lemma {:induction false} PlacedAgain(w: World, entries: seq<AllocationEntry>)
    requires forall e :: e in entries ==> Placed(w, e)
    ensures AllocateEntries(w, entries) == Some(w)
  {
    if entries == [] {
    } else {
      PlacedAgain(w, entries[..|entries| - 1]);
      assert Placed(w, entries[|entries| - 1]);
    }
  }

  ghost predicate OnBooks(w: World, e: AccrualEntry) {
    e.item.Some? && e.period != "" && FindAccrual(w.accruals, e.item.value, e.period).Some?
  }

  lemma {:induction false} BookAccrualsBook(w: World, entries: seq<AccrualEntry>)
    requires BookAccruals(w, entries).Some?
    ensures var v := BookAccruals(w, entries).value;
            && (forall e :: e in entries ==> OnBooks(v, e))
            && w.accruals <= v.accruals && v == w.(accruals := v.accruals)
  {
    hide OnBooks, BookAccrual;
    if entries == [] {
    } else {
      var n := |entries| - 1;
      BookAccrualsBook(w, entries[..n]);
      var u, v := BookAccruals(w, entries[..n]).value, BookAccruals(w, entries).value;
      BookAccrualBooks(u, entries[n]);
      forall e | e in entries
        ensures OnBooks(v, e)
      {
        var i :| 0 <= i <= n && entries[i] == e;
        if i < n {
          assert entries[..n][i] in entries[..n];
          OnBooksStays(u, v, e);
        }
      }
    }
  }

  lemma BookAccrualBooks(w: World, e: AccrualEntry)
    requires BookAccrual(w, e).Some?
    ensures var v := BookAccrual(w, e).value;
        OnBooks(v, e) && w.accruals <= v.accruals && v == w.(accruals := v.accruals)
  {
    var v := BookAccrual(w, e).value;
    if v != w {
      assert v.accruals[|w.accruals|] in v.accruals;
    }
  }

  lemma OnBooksStays(w: World, next: World, e: AccrualEntry)
    requires OnBooks(w, e) && w.accruals <= next.accruals
    ensures OnBooks(next, e)
  {
    FindAccrualStays(w.accruals, next.accruals, e.item.value, e.period);
  }

  lemma {:induction false} OnBooksAgain(w: World, entries: seq<AccrualEntry>)
    requires forall e :: e in entries ==> OnBooks(w, e)
    ensures BookAccruals(w, entries) == Some(w)
  {
    if entries == [] {
    } else {
      OnBooksAgain(w, entries[..|entries| - 1]);
      assert OnBooks(w, entries[|entries| - 1]);
    }
  }

  ghost predicate Settled(w: World, p: Pack, e: ReversalEntry) {
    && AccrualOf(w, p, e).Some? && AllocationOf(w, p, e).Some?
    && Reversed(w.reversals, AccrualOf(w, p, e).value, AllocationOf(w, p, e).value)
  }

  lemma BookReversalSettles(w: World, p: Pack, e: ReversalEntry)
    requires BookReversal(w, p, e).Some?
    ensures var v := BookReversal(w, p, e).value;
            Settled(v, p, e) && w.reversals <= v.reversals && v == w.(reversals := v.reversals)
  {
    hide Find, FindAccrual, NamesAccrual, NamesAllocation;
    var v := BookReversal(w, p, e).value;
    if v != w {
      assert v.reversals[|w.reversals|] in v.reversals;
    }
  }

  lemma SettledStays(w: World, next: World, p: Pack, e: ReversalEntry)
    requires Settled(w, p, e) && w.reversals <= next.reversals && next.accruals == w.accruals
      && next.allocations == w.allocations
    ensures Settled(next, p, e)
  {
    hide Find, FindAccrual, NamesAccrual, NamesAllocation;
    var r :| r in w.reversals && r.accrual == AccrualOf(w, p, e).value && r.allocation == AllocationOf(w, p, e).value;
    assert r in next.reversals;
  }

  lemma {:induction false} BookReversalsSettle(w: World, p: Pack, entries: seq<ReversalEntry>)
    requires BookReversals(w, p, entries).Some?
    ensures var v := BookReversals(w, p, entries).value;
            && (forall e :: e in entries ==> Settled(v, p, e))
            && w.reversals <= v.reversals && v == w.(reversals := v.reversals)
  {
    hide Settled, BookReversal;
    if entries == [] {
    } else {
      var n := |entries| - 1;
      BookReversalsSettle(w, p, entries[..n]);
      var u, v := BookReversals(w, p, entries[..n]).value, BookReversals(w, p, entries).value;
      BookReversalSettles(u, p, entries[n]);
      forall e | e in entries
        ensures Settled(v, p, e)
      {
        var i :| 0 <= i <= n && entries[i] == e;
        if i < n {
          assert entries[..n][i] in entries[..n];
          SettledStays(u, v, p, e);
        }
      }
    }
  }

  lemma {:induction false} SettledAgain(w: World, p: Pack, entries: seq<ReversalEntry>)
    requires forall e :: e in entries ==> Settled(w, p, e)
    ensures BookReversals(w, p, entries) == Some(w)
  {
    if entries == [] {
    } else {
      SettledAgain(w, p, entries[..|entries| - 1]);
      assert Settled(w, p, entries[|entries| - 1]);
    }
  }

  lemma RestatingKeepsPlaces(w: World, touched: set<nat>, p: Pack)
    ensures var v := Restated(w, touched);
            && (forall e :: OnBooks(w, e) ==> OnBooks(v, e)) && (forall e :: Placed(w, e) ==> Placed(v, e))
            && (forall e :: Settled(w, p, e) ==> Settled(v, p, e))
  {
    var v := Restated(w, touched);
    forall item: nat, period: string
      ensures FindAccrual(w.accruals, item, period) == FindAccrual(v.accruals, item, period)
    {
      FindAccrualRestated(w.accruals, v.accruals, item, period);
    }
  }

  lemma NothingToRestate(w: World)
    ensures Restated(w, Touched(w.reversals, |w.reversals|)) == w
  {
    assert Touched(w.reversals, |w.reversals|) == {};
    assert Restated(w, {}).accruals == w.accruals;
  }

  /** What an imported pack names is there afterwards: its accruals, its allocations, its reversals. */
  lemma ImportLeaves(w: World, p: Pack, after: World)
    requires ImportClose(w, p) == Some(after)
    ensures (forall e :: e in p.accruals ==> OnBooks(after, e)) && (forall e :: e in p.allocations ==> Placed(after, e))
    ensures forall e :: e in p.reversals ==> Settled(after, p, e)
  {
    hide BookAccruals, AllocateEntries, BookReversals, OnBooks, Placed, Settled, Restated, Touched;
    var booked := BookAccruals(w, p.accruals).value;
    var placed := AllocateEntries(booked, p.allocations).value;
    var done := BookReversals(placed, p, p.reversals).value;
    BookAccrualsBook(w, p.accruals);
    AllocateEntriesPlace(booked, p.allocations);
    BookReversalsSettle(placed, p, p.reversals);
    forall e | e in p.accruals
      ensures OnBooks(done, e)
    {
      SameAccrualsSameBooks(booked, done, e);
    }
    forall e | e in p.allocations
      ensures Placed(done, e)
    {
      PlacedStays(placed, done, e);
    }
    RestatingKeepsPlaces(done, Touched(done.reversals, |w.reversals|), p);
  }

  /** The entries of a close-fact pack imported a second time at once change nothing. */
  lemma CloseImportIsIdempotent(w: World, p: Pack, after: World)
    requires ImportClose(w, p) == Some(after)
    ensures ImportClose(after, p) == Some(after)
  {
    hide BookAccruals, AllocateEntries, BookReversals, OnBooks, Placed, Settled, Restated, Touched;
    ImportLeaves(w, p, after);
    OnBooksAgain(after, p.accruals);
    PlacedAgain(after, p.allocations);
    SettledAgain(after, p, p.reversals);
    NothingToRestate(after);
  }

  lemma SameAccrualsSameBooks(w: World, next: World, e: AccrualEntry)
    requires OnBooks(w, e) && w.accruals == next.accruals
    ensures OnBooks(next, e)
  {
  }

  /** And so does a fact pack's list of allocations. */
  lemma FactPackIsIdempotent(w: World, entries: seq<AllocationEntry>, after: World)
    requires AllocateEntries(w, entries) == Some(after)
    ensures AllocateEntries(after, entries) == Some(after)
  {
    hide AllocateEntries, Placed;
    AllocateEntriesPlace(w, entries);
    PlacedAgain(after, entries);
  }
}
