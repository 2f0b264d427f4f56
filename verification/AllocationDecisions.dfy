/** When an allocation is accepted, by request, by entry or as a replacement, and what it then records. */
module AllocationDecisions {
  import opened Options
  import opened Sequences
  import opened ItemAllocations
  import opened ItemAllocationTheorems
  import opened LineReversals

  /** The line takes this quantity and net amount for this item: the item's contract is confirmed for the line's
      invoice, the figures are in bounds, and beside `used` there is room. */
  ghost predicate Fitting(w: World, line: nat, item: nat, quantity: real, net: real, used: real) {
    && line in w.lines && item in w.items
    && (exists c :: c in w.confirmations && c.confirmed && c.invoice == w.lines[line].invoice
                    && c.contract == w.items[item])
    && 0.0 < quantity && 0.0 <= net <= w.lines[line].net
    && w.lines[line].quantity.Some? && used + quantity <= w.lines[line].quantity.value
  }

  lemma GuardedIsFitting(w: World, line: nat, item: nat, quantity: real, net: real, used: real)
    requires line in w.lines && item in w.items
    ensures Guarded(w, line, item, quantity, net, used).None? <==> Fitting(w, line, item, quantity, net, used)
  {
  }

  /** Why a fitting test fails, by the first reason that holds. */
  lemma GuardReasons(w: World, line: nat, item: nat, quantity: real, net: real, used: real)
    requires line in w.lines && item in w.items
    ensures var g := Guarded(w, line, item, quantity, net, used);
            var confirmed := exists c :: c in w.confirmations && c.confirmed && c.invoice == w.lines[line].invoice
                                         && c.contract == w.items[item];
            && (g == Some(NotConfirmed) <==> !confirmed)
            && (g == Some(NoLineQuantity) <==> confirmed && w.lines[line].quantity.None?)
            && (g == Some(QuantityNotPositive) ==> quantity <= 0.0)
            && (g == Some(NetNegative) ==> 0.0 < quantity && net < 0.0)
            && (g == Some(NetExceeded) ==> 0.0 < quantity && net > w.lines[line].net)
            && (g == Some(CapacityExceeded) ==> used + quantity > w.lines[line].quantity.value)
            && (g.Some? ==> g.value in {NotConfirmed, NoLineQuantity, QuantityNotPositive, NetNegative, NetExceeded,
                                        CapacityExceeded})
  {
  }

  /** What the current allocations of a line hold. */
  function Held(allocations: seq<Allocation>, line: nat): real { Total(allocations, CurrentOn(line)) }

  lemma UsedIsHeld(allocations: seq<Allocation>, line: nat)
    ensures Used(allocations, line) == Held(allocations, line)
  {
    UsedByAllocation(allocations, line);
  }

  // ---- A manual request ----

  /** A request is accepted exactly when it names a line and an item on record, its payload is new, and it fits.  It
      records one current allocation that states it, and its payload. */
  lemma RequestedExactly(w: World, r: Request)
    ensures Manual(w, r).Done? <==>
              && r.line.Some? && r.item.Some?
              && Payload(r.line.value, r.item.value, r.quantity, r.net) !in w.payloads
              && Fitting(w, r.line.value, r.item.value, r.quantity.value, r.net.value,
                         Held(w.allocations, r.line.value))
    ensures Manual(w, r).Done? ==>
              var v := Manual(w, r).world;
              && v.allocations == w.allocations + [Allocation(|w.allocations|, r.line.value, r.item.value,
                                                              r.quantity.value, r.net.value, None)]
              && v.payloads == w.payloads + {Payload(r.line.value, r.item.value, r.quantity, r.net)}
              && v == w.(allocations := v.allocations, payloads := v.payloads)
    ensures Manual(w, r) == Refused(DuplicateRequest) <==>
              && r.line.Some? && r.item.Some? && r.line.value in w.lines && r.item.value in w.items
              && Payload(r.line.value, r.item.value, r.quantity, r.net) in w.payloads
  {
    hide Guarded, Fitting, Used, Held;
    if r.line.Some? && r.item.Some? {
      UsedIsHeld(w.allocations, r.line.value);
      if r.line.value in w.lines && r.item.value in w.items {
        GuardedIsFitting(w, r.line.value, r.item.value, r.quantity.value, r.net.value,
                         Used(w.allocations, r.line.value));
        GuardReasons(w, r.line.value, r.item.value, r.quantity.value, r.net.value, Used(w.allocations, r.line.value));
      } else if Fitting(w, r.line.value, r.item.value, r.quantity.value, r.net.value,
                        Held(w.allocations, r.line.value)) {
        FittingIsOnRecord(w, r.line.value, r.item.value, r.quantity.value, r.net.value,
                          Held(w.allocations, r.line.value));
      }
    }
  }

  lemma FittingIsOnRecord(w: World, line: nat, item: nat, quantity: real, net: real, used: real)
    requires Fitting(w, line, item, quantity, net, used)
    ensures line in w.lines && item in w.items
  {
  }

  // ---- An entry of a pack ----

  /** An entry is accepted exactly when a current allocation of its line and item is there, or it fits; it records one
      only in the second case. */
  lemma EntryExactly(w: World, e: AllocationEntry)
    ensures AllocateEntry(w, e).Some? <==>
              && e.line.Some? && e.item.Some?
              && ((exists a :: a in w.allocations && a.supersededBy.None? && a.invoiceItem == e.line.value
                               && a.item == e.item.value)
                  || Fitting(w, e.line.value, e.item.value, e.quantity, e.net, Held(w.allocations, e.line.value)))
    ensures AllocateEntry(w, e).Some? ==>
              var v := AllocateEntry(w, e).value;
              if exists a :: a in w.allocations && a.supersededBy.None? && a.invoiceItem == e.line.value
                             && a.item == e.item.value
              then v == w
              else
                v == w.(allocations := w.allocations + [Allocation(|w.allocations|, e.line.value, e.item.value,
                                                                   e.quantity, e.net, None)])
  {
    hide Guarded, Fitting, Used, Held;
    if e.line.Some? && e.item.Some? {
      UsedIsHeld(w.allocations, e.line.value);
      PlacedMeans(w.allocations, e.line.value, e.item.value);
      if e.line.value in w.lines && e.item.value in w.items {
        GuardedIsFitting(w, e.line.value, e.item.value, e.quantity, e.net, Used(w.allocations, e.line.value));
      } else if Fitting(w, e.line.value, e.item.value, e.quantity, e.net, Held(w.allocations, e.line.value)) {
        FittingIsOnRecord(w, e.line.value, e.item.value, e.quantity, e.net, Held(w.allocations, e.line.value));
      }
    }
  }

  lemma PlacedMeans(allocations: seq<Allocation>, line: nat, item: nat)
    ensures Find(allocations, line, item).Some? <==>
              exists a :: a in allocations && a.supersededBy.None? && a.invoiceItem == line && a.item == item
  {
    hide Find;
    var f := Find(allocations, line, item);
    if f.Some? {
      assert allocations[f.value] in allocations;
    }
    if a :| a in allocations && a.supersededBy.None? && a.invoiceItem == line && a.item == item {
      assert Places(a, line, item);
    }
  }

  // ---- A replacement ----

  /** A replacement is accepted exactly when its target is current, its evidence is on record and not the target's own,
      and it fits beside what the line's other allocations hold. */
  lemma ReplacedExactly(w: World, r: Replacement)
    requires Numbered(w)
    ensures Supersede(w, r).Done? <==>
              && r.target < |w.allocations| && w.allocations[r.target].supersededBy.None? && r.evidence.Fresh?
              && Fitting(w, w.allocations[r.target].invoiceItem, w.allocations[r.target].item, r.quantity, r.net,
                         Held(w.allocations, w.allocations[r.target].invoiceItem) - w.allocations[r.target].quantity)
    ensures Supersede(w, r).Done? ==>
              var v, id, was := Supersede(w, r).world, |w.allocations|, w.allocations[r.target];
              && v == w.(allocations := v.allocations) && |v.allocations| == id + 1
              && v.allocations[r.target] == was.(supersededBy := Some(id))
              && v.allocations[id] == Allocation(id, was.invoiceItem, was.item, r.quantity, r.net, None)
              && forall i :: 0 <= i < id && i != r.target ==> v.allocations[i] == w.allocations[i]
    ensures (Supersede(w, r) == Refused(AlreadySuperseded) <==>
              r.target < |w.allocations| && w.allocations[r.target].supersededBy.Some?)
    ensures r.target < |w.allocations| && w.allocations[r.target].supersededBy.None? ==>
              && (Supersede(w, r) == Refused(EvidenceNotFound) <==> r.evidence.Missing?)
              && (Supersede(w, r) == Refused(EvidenceReused) <==> r.evidence.Own?)
  {
    hide Guarded, Fitting, Used, Held, UsedBeside;
    if r.target < |w.allocations| && w.allocations[r.target].supersededBy.None? {
      var was := w.allocations[r.target];
      var used := UsedBeside(w.allocations, was.invoiceItem, r.target);
      BesideIs(w.allocations, r.target);
      if was.invoiceItem in w.lines && was.item in w.items {
        GuardedIsFitting(w, was.invoiceItem, was.item, r.quantity, r.net, used);
        GuardReasons(w, was.invoiceItem, was.item, r.quantity, r.net, used);
      } else if Fitting(w, was.invoiceItem, was.item, r.quantity, r.net, used) {
        FittingIsOnRecord(w, was.invoiceItem, was.item, r.quantity, r.net, used);
      }
    }
  }

  /** What is used beside an allocation is what the line holds without it. */
  lemma BesideIs(allocations: seq<Allocation>, target: nat)
    requires target < |allocations| && allocations[target].supersededBy.None?
    requires forall i :: 0 <= i < |allocations| ==> allocations[i].id == i
    ensures var line := allocations[target].invoiceItem;
            UsedBeside(allocations, line, target) == Held(allocations, line) - allocations[target].quantity
  {
    hide UsedBeside, Held, Used;
    var line := allocations[target].invoiceItem;
    ReplacementUse(allocations, target, |allocations|);
    UsedIsHeld(Retire(allocations, target, |allocations|), line);
    RetiredHolds(allocations, target, |allocations|);
  }

  lemma RetiredHolds(allocations: seq<Allocation>, target: nat, successor: nat)
    requires target < |allocations| && allocations[target].supersededBy.None?
    ensures var line := allocations[target].invoiceItem;
            Held(Retire(allocations, target, successor), line) == Held(allocations, line) - allocations[target].quantity
  {
    var line := allocations[target].invoiceItem;
    var weight := CurrentOn(line);
    var retired := Retire(allocations, target, successor);
    TotalRemove(allocations, weight, target);
    TotalRemove(retired, weight, target);
    assert retired[..target] + retired[target + 1..] == allocations[..target] + allocations[target + 1..];
  }
}
