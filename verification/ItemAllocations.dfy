/**
 Allocating invoice lines to contract items: one guard, shared by manual requests, close-fact imports,
 fact-pack imports and supersessions; and what a close-fact import books beside it.
 */
module ItemAllocations {
  import opened Options
  import opened Sequences
  import P = PeriodCloseRules

  datatype Line = Line(invoice: nat, quantity: Option<real>, net: real)

  /** An accrual as booked: its figures, its period and the status on record. */
  datatype Booked = Booked(accrual: P.Accrual, period: string, status: P.Status)

  /** An allocation is never edited: a correction is a new one, named by the old. */
  datatype Allocation = Allocation(
    id: nat, invoiceItem: nat, item: nat, quantity: real, net: real, supersededBy: Option<nat>)

  /** The allocation as the period close reads it. */
  function AsRead(a: Allocation): P.ItemAllocation { P.ItemAllocation(a.id, a.invoiceItem, a.item, a.quantity, a.net) }

  /**
   Contract items point to their contract; an allocation's id is its place in the list, and so is an accrual's.
   `payloads` are the manual requests on record, known by their digests, and `files` the digests of imported files.
   */
  datatype World = World(
    lines: map<nat, Line>, items: map<nat, nat>, confirmations: seq<P.InvoiceAllocation>, allocations: seq<Allocation>,
    payloads: set<Payload>, files: set<string>, accruals: seq<Booked>, reversals: seq<P.Reversal>)

  // ---- The guard ----

  datatype Refusal =
    | NotConfirmed | NoLineQuantity | QuantityNotPositive | NetNegative | NetExceeded | CapacityExceeded
    | NotFound | DuplicateRequest | AlreadySuperseded | EvidenceNotFound | EvidenceReused

  function QuantityOf(a: Allocation): real { a.quantity }

  /** The current allocations of a line. */
  function OnLine(allocations: seq<Allocation>, line: nat): seq<Allocation> {
    Keep(allocations, (a: Allocation) => a.supersededBy.None? && a.invoiceItem == line)
  }

  function Used(allocations: seq<Allocation>, line: nat): real { Total(OnLine(allocations, line), QuantityOf) }

  predicate ConfirmedFor(confirmations: seq<P.InvoiceAllocation>, invoice: nat, contract: nat) {
    exists c :: c in confirmations && c.invoice == invoice && c.contract == contract && c.confirmed
  }

  /** The first guard that fails, in the order they are tried, with `used` already allocated of the line. */
  function Guarded(w: World, line: nat, item: nat, quantity: real, net: real, used: real): Option<Refusal>
    requires line in w.lines && item in w.items
  {
    var l := w.lines[line];
    if !ConfirmedFor(w.confirmations, l.invoice, w.items[item]) then Some(NotConfirmed)
    else if l.quantity.None? then Some(NoLineQuantity)
    else if quantity <= 0.0 then Some(QuantityNotPositive)
    else if net < 0.0 then Some(NetNegative)
    else if net > l.net then Some(NetExceeded)
    else if used + quantity > l.quantity.value then Some(CapacityExceeded)
    else None
  }

  function Validate(w: World, line: nat, item: nat, quantity: real, net: real): Option<Refusal>
    requires line in w.lines && item in w.items
  {
    Guarded(w, line, item, quantity, net, Used(w.allocations, line))
  }

  function WithAllocation(w: World, line: nat, item: nat, quantity: real, net: real): World {
    w.(allocations := w.allocations + [Allocation(|w.allocations|, line, item, quantity, net, None)])
  }

  // ---- The manual request ----

  /** A decimal as it is written: 1.0 and 1.00 are one value and two texts. */
  datatype Written = Written(value: real, places: nat)

  datatype Request = Request(line: Option<nat>, item: Option<nat>, quantity: Written, net: Written)

  /** What the digest of a request is taken of; different payloads have different digests. */
  datatype Payload = Payload(line: nat, item: nat, quantity: Written, net: Written)

  datatype Decision = Refused(reason: Refusal) | Done(world: World)

  function Manual(w: World, r: Request): Decision {
    if r.line.None? || r.item.None? || r.line.value !in w.lines || r.item.value !in w.items then Refused(NotFound)
    else
      var payload := Payload(r.line.value, r.item.value, r.quantity, r.net);
      if payload in w.payloads then Refused(DuplicateRequest)
      else
        match Validate(w, r.line.value, r.item.value, r.quantity.value, r.net.value)
        case Some(reason) => Refused(reason)
        case None =>
          var next := WithAllocation(w, r.line.value, r.item.value, r.quantity.value, r.net.value);
          Done(next.(payloads := w.payloads + {payload}))
  }

  // ---- Supersession ----

  /** The evidence a replacement cites: not on record, the superseded allocation's own, or another. */
  datatype Evidence = Missing | Own | Fresh

  datatype Replacement = Replacement(target: nat, evidence: Evidence, quantity: real, net: real)

  /** What is allocated of a line beside one allocation, whose quantity is being handed back. */
  function UsedBeside(allocations: seq<Allocation>, line: nat, target: nat): real {
    Total(Keep(allocations, (a: Allocation) => a.supersededBy.None? && a.invoiceItem == line && a.id != target),
          QuantityOf)
  }

  function SupersedeRefusal(w: World, r: Replacement): Option<Refusal> {
    if r.target >= |w.allocations| then Some(NotFound)
    else
      var a := w.allocations[r.target];
      if a.supersededBy.Some? then Some(AlreadySuperseded)
      else if r.evidence.Missing? then Some(EvidenceNotFound)
      else if r.evidence.Own? then Some(EvidenceReused)
      else if a.invoiceItem !in w.lines || a.item !in w.items then Some(NotFound)
      else Guarded(w, a.invoiceItem, a.item, r.quantity, r.net, UsedBeside(w.allocations, a.invoiceItem, r.target))
  }

  function Retire(allocations: seq<Allocation>, target: nat, successor: nat): seq<Allocation>
    requires target < |allocations|
  {
    allocations[target := allocations[target].(supersededBy := Some(successor))]
  }

  /** The new allocation is of the same line and item as the old, which then names it. */
  function WithReplacement(w: World, r: Replacement): World
    requires r.target < |w.allocations|
  {
    var a, id := w.allocations[r.target], |w.allocations|;
    w.(allocations :=
      Retire(w.allocations, r.target, id) + [Allocation(id, a.invoiceItem, a.item, r.quantity, r.net, None)])
  }

  function Supersede(w: World, r: Replacement): Decision {
    match SupersedeRefusal(w, r)
    case Some(reason) => Refused(reason)
    case None => Done(WithReplacement(w, r))
  }

  // ---- The packs ----

  datatype AllocationEntry = AllocationEntry(line: Option<nat>, item: Option<nat>, quantity: real, net: real)

  datatype AccrualEntry = AccrualEntry(item: Option<nat>, period: string, quantity: real, cost: real, fact: nat)

  datatype ReversalEntry = ReversalEntry(line: Option<nat>, item: Option<nat>, period: string, quantity: real,
      cost: real)

  datatype Pack = Pack(accruals: seq<AccrualEntry>, allocations: seq<AllocationEntry>, reversals: seq<ReversalEntry>)

  predicate Places(a: Allocation, line: nat, item: nat) {
    a.supersededBy.None? && a.invoiceItem == line && a.item == item
  }

  /** The first current allocation of a line to an item. */
  function Find(allocations: seq<Allocation>, line: nat, item: nat): (r: Option<nat>)
    ensures r.Some? ==> r.value < |allocations| && Places(allocations[r.value], line, item)
    ensures r.None? ==> forall a :: a in allocations ==> !Places(a, line, item)
  {
    if allocations == [] then None
    else
      var n := |allocations| - 1;
      assert allocations == allocations[..n] + [allocations[n]];
      var earlier := Find(allocations[..n], line, item);
      if earlier.Some? then earlier
      else if Places(allocations[n], line, item) then Some(n)
      else None
  }

  function FindAccrual(accruals: seq<Booked>, item: nat, period: string): (r: Option<nat>)
    ensures r.Some? ==>
              && r.value < |accruals|
              && accruals[r.value].accrual.item == item && accruals[r.value].period == period
    ensures r.None? ==> forall b :: b in accruals ==> b.accrual.item != item || b.period != period
  {
    if accruals == [] then None
    else
      var n := |accruals| - 1;
      assert accruals == accruals[..n] + [accruals[n]];
      var earlier := FindAccrual(accruals[..n], item, period);
      if earlier.Some? then earlier
      else if accruals[n].accrual.item == item && accruals[n].period == period then Some(n)
      else None
  }

  /** A pair already allocated is skipped; anything the guard refuses rejects the pack. */
  function AllocateEntry(w: World, e: AllocationEntry): Option<World> {
    if e.line.None? || e.item.None? then None
    else if Find(w.allocations, e.line.value, e.item.value).Some? then Some(w)
    else if e.line.value !in w.lines || e.item.value !in w.items then None
    else if Validate(w, e.line.value, e.item.value, e.quantity, e.net).Some? then None
    else Some(WithAllocation(w, e.line.value, e.item.value, e.quantity, e.net))
  }

  function AllocateEntries(w: World, entries: seq<AllocationEntry>): Option<World> {
    if entries == [] then Some(w)
    else
      match AllocateEntries(w, entries[..|entries| - 1])
      case None => None
      case Some(v) => AllocateEntry(v, entries[|entries| - 1])
  }

  /** One accrual per item and period; a repeat is skipped. */
  function BookAccrual(w: World, e: AccrualEntry): Option<World> {
    if e.item.None? || e.period == "" then None
    else if FindAccrual(w.accruals, e.item.value, e.period).Some? then Some(w)
    else
      var a := P.Accrual(|w.accruals|, e.item.value, e.quantity, e.cost, e.fact);
      Some(w.(accruals := w.accruals + [Booked(a, e.period, P.Active)]))
  }

  function BookAccruals(w: World, entries: seq<AccrualEntry>): Option<World> {
    if entries == [] then Some(w)
    else
      match BookAccruals(w, entries[..|entries| - 1])
      case None => None
      case Some(v) => BookAccrual(v, entries[|entries| - 1])
  }

  predicate NamesAccrual(p: Pack, item: nat, period: string) {
    exists e :: e in p.accruals && e.item == Some(item) && e.period == period
  }

  predicate NamesAllocation(p: Pack, line: nat, item: nat) {
    exists e :: e in p.allocations && e.line == Some(line) && e.item == Some(item)
  }

  predicate Reversed(reversals: seq<P.Reversal>, accrual: nat, allocation: nat) {
    exists r :: r in reversals && r.accrual == accrual && r.allocation == allocation
  }

  /** The accrual and allocation a reversal entry means; both must be named in the same pack. */
  function AccrualOf(w: World, p: Pack, e: ReversalEntry): Option<nat> {
    if e.item.Some? && e.period != "" && NamesAccrual(p, e.item.value, e.period)
      then FindAccrual(w.accruals, e.item.value, e.period) else None
  }

  function AllocationOf(w: World, p: Pack, e: ReversalEntry): Option<nat> {
    if e.item.Some? && e.line.Some? && NamesAllocation(p, e.line.value, e.item.value)
      then Find(w.allocations, e.line.value, e.item.value)
    else None
  }

  function BookReversal(w: World, p: Pack, e: ReversalEntry): Option<World> {
    var accrual, allocation := AccrualOf(w, p, e), AllocationOf(w, p, e);
    if accrual.None? || allocation.None? then None
    else if Reversed(w.reversals, accrual.value, allocation.value) then Some(w)
    else Some(w.(reversals := w.reversals + [P.Reversal(accrual.value, allocation.value, e.quantity, e.cost)]))
  }

  function BookReversals(w: World, p: Pack, entries: seq<ReversalEntry>): Option<World> {
    if entries == [] then Some(w)
    else
      match BookReversals(w, p, entries[..|entries| - 1])
      case None => None
      case Some(v) => BookReversal(v, p, entries[|entries| - 1])
  }

  /** The accruals that have gained a reversal since some earlier number of them. */
  function Touched(reversals: seq<P.Reversal>, before: nat): set<nat> {
    set i | before <= i < |reversals| :: reversals[i].accrual
  }

  function StatusNow(reversals: seq<P.Reversal>, a: P.Accrual): P.Status {
    var b := P.BalanceOf(a, P.ReversalsOf(reversals, a.id));
    P.ProjectedStatus(b.reversedQuantity, b.quantity)
  }

  function Restate(reversals: seq<P.Reversal>, touched: set<nat>, b: Booked): Booked {
    if b.accrual.id in touched then b.(status := StatusNow(reversals, b.accrual)) else b
  }

  function Restated(w: World, touched: set<nat>): World {
    w.(accruals := Map(w.accruals, (b: Booked) => Restate(w.reversals, touched, b)))
  }

  /** A close-fact pack: accruals, allocations, reversals, then the statuses of the accruals reversed. */
  function ImportClose(w: World, p: Pack): Option<World> {
    match BookAccruals(w, p.accruals)
    case None => None
    case Some(booked) =>
      match AllocateEntries(booked, p.allocations)
      case None => None
      case Some(placed) =>
        match BookReversals(placed, p, p.reversals)
        case None => None
        case Some(done) => Some(Restated(done, Touched(done.reversals, |w.reversals|)))
  }

  /** A file whose digest is on record is answered as imported before, and nothing is read from it. */
  function ImportFile(w: World, file: string, p: Pack): Option<World> {
    if file in w.files then Some(w)
    else
      match ImportClose(w, p)
      case None => None
      case Some(next) => Some(next.(files := w.files + {file}))
  }

  datatype Action =
    | AddLine(line: nat, facts: Line)
    | AddItem(item: nat, contract: nat)
    | Confirm(confirmation: P.InvoiceAllocation)
    | Allocate(request: Request)
    | Replace(replacement: Replacement)
    | FactPack(entries: seq<AllocationEntry>)
    | RecordFile(document: string)
    | CloseFacts(file: string, pack: Pack)

  /** A refused request or a rejected pack leaves everything as it was. */
  function Apply(w: World, a: Action): World {
    match a
    case AddLine(line, facts) => if line in w.lines then w else w.(lines := w.lines[line := facts])
    case AddItem(item, contract) => if item in w.items then w else w.(items := w.items[item := contract])
    case Confirm(c) => w.(confirmations := w.confirmations + [c])
    case Allocate(r) => (match Manual(w, r) case Done(next) => next case Refused(_) => w)
    case Replace(r) => (match Supersede(w, r) case Done(next) => next case Refused(_) => w)
    case FactPack(entries) => (match AllocateEntries(w, entries) case Some(next) => next case None => w)
    case RecordFile(file) => w.(files := w.files + {file})
    case CloseFacts(file, p) => (match ImportFile(w, file, p) case Some(next) => next case None => w)
  }

  function Run(w: World, actions: seq<Action>): World {
    if actions == [] then w else Apply(Run(w, actions[..|actions| - 1]), actions[|actions| - 1])
  }

  const EMPTY := World(map[], map[], [], [], {}, {}, [], [])
}
