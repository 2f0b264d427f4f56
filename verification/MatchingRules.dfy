/**
 M001, exact counterparty and exact gross amount: the records the matching pass reads and
 writes, and the decision it takes for one subject.  Amounts are whole cents.
 */
module MatchingRules {
  import opened Options
  import opened Keys
  import opened Strings

  // ---- Records ----

  /** A counterparty as stated and as normalised; the normalisation itself is not modelled. */
  datatype Party = Party(raw: Option<string>, norm: Option<string>)

  datatype Contract = Contract(
    id: nat, no: string, party: Party, gross: int, date: Option<int>,
    contractType: Option<string>, buyer: Option<string>, currency: string)

  /** `procurement` holds of PURCHASE invoices and OUT payments; `details` is whatever else
      takes part in comparing two subjects for equivalence. */
  datatype Subject =
    | Invoice(id: nat, procurement: bool, amount: int, party: Party, date: Option<int>, details: Key,
              externalKey: Option<string>, digitalNo: Option<string>, invoiceNo: Option<string>)
    | Payment(id: nat, procurement: bool, amount: int, party: Party, date: Option<int>, details: Key,
              account: Option<string>, bankReference: Option<string>)
  {
    function Kind(): Kind { if Invoice? then InvoiceKind else PaymentKind }
    function Ref(): Ref { SubjectRef(Kind(), id) }
  }

  datatype Kind = InvoiceKind | PaymentKind
  datatype Ref = SubjectRef(kind: Kind, id: nat)

  datatype Status = AutoConfirmed | HumanConfirmationRequired | Resolved | Unmatched
  datatype MatchCase = MatchCase(subject: Ref, status: Status)

  datatype Basis = Unique | Chronological | EquivalentCanonical
  datatype Allocation = Allocation(subject: Ref, contract: nat, caseId: nat, amount: int, basis: Basis, human: bool)
  datatype Candidate = Candidate(caseId: nat, contract: nat)
  datatype CapacityTask = CapacityTask(subject: Ref, contract: nat, already: int, attempted: int, gross: int)
  datatype Event =
    | MatchAutoConfirmed(subject: Ref, contract: nat, amount: int)
    | CapacityExceededEvent(subject: Ref, contract: nat)
    | HumanConfirmationNeeded(subject: Ref, contracts: seq<nat>)
    | MatchHumanConfirmed(caseId: nat, contract: nat)

  /** Everything the pass appends to; a case's id is its position. */
  datatype Ledger = Ledger(
    cases: seq<MatchCase>, allocations: seq<Allocation>, candidates: seq<Candidate>,
    tasks: seq<CapacityTask>, events: seq<Event>)

  // ---- Keys ----

  const MIN_DATE: int := 1

  predicate Usable(v: Option<string>) {
    v.Some? && !Blank(v.value)
  }

  function FirstUsableKey(a: Option<string>, b: Option<string>, c: Option<string>): Option<string> {
    if Usable(a) then a else if Usable(b) then b else if Usable(c) then c else None
  }

  function DatePart(date: Option<int>): Key {
    if date.Some? then [Num(0), Num(date.value)] else [Num(1), Num(MIN_DATE)]
  }

  function ContractOrder(c: Contract): Key {
    DatePart(c.date) + [Text(c.no), Num(c.id)]
  }

  function SubjectOrder(s: Subject): Key {
    match s
    case Invoice(_, _, _, _, _, _, ext, digital, no) =>
      var business := FirstUsableKey(ext, digital, no);
      DatePart(s.date) + [Num(if business.Some? then 0 else 1), Text(business.GetOr("")), Num(s.id)]
    case Payment(_, _, _, _, _, _, _, ref) =>
      DatePart(s.date) + [Text(ref.GetOr("")), Num(s.id)]
  }

  predicate Filled(v: Option<string>) { v.Some? && v.value != "" }

  /** The stable source identity of a subject; never its row id. */
  function Identity(s: Subject): Option<Key> {
    match s
    case Invoice(_, _, _, _, _, _, ext, digital, no) =>
      var business := FirstUsableKey(ext, digital, no);
      if business.Some? then Some([Text(business.value)]) else None
    case Payment(_, out, amount, _, date, _, account, ref) =>
      if !Filled(account) || !Filled(ref) || date.None? then None
      else Some([Text(account.value), Num(date.value), Text(if out then "OUT" else "IN"), Num(amount), Text(ref.value)])
  }

  function IdentityKey(s: Subject): Key { Identity(s).GetOr([]) }

  function ContractIdentity(c: Contract): Key { [Text(c.no), Text(c.party.raw.GetOr(""))] }

  /** What two subjects must share, besides a cohort, to be interchangeable. */
  datatype SubjectState = SubjectState(
    procurement: bool, date: Option<int>, stated: Option<string>, amount: int, account: Option<string>, details: Key)

  function StateOf(s: Subject): SubjectState {
    SubjectState(s.procurement, s.date, s.party.raw, s.amount, if s.Payment? then s.account else None, s.details)
  }

  datatype ContractState = ContractState(
    contractType: Option<string>, buyer: Option<string>, gross: int, currency: string, date: Option<int>)

  function ContractStateOf(c: Contract): ContractState {
    ContractState(c.contractType, c.buyer, c.gross, c.currency, c.date)
  }

  // ---- Eligibility, cohorts and candidate pools ----

  predicate Eligible(s: Subject, contracts: seq<Contract>) {
    s.party.norm.Some? && exists i :: 0 <= i < |contracts| && contracts[i].party.norm == s.party.norm
  }

  datatype CohortKey = CohortKey(party: Option<string>, amount: int)

  function KeyOf(s: Subject): CohortKey { CohortKey(s.party.norm, s.amount) }

  function ContractKey(c: Contract): CohortKey { CohortKey(c.party.norm, c.gross) }

  /** The candidate contracts of a cohort, in listing order. */
  function Pool(k: CohortKey, contracts: seq<Contract>): (pool: seq<Contract>)
    ensures forall c :: c in pool <==> c in contracts && k.party.Some? && ContractKey(c) == k
  {
    if contracts == [] || k.party.None? then []
    else (if ContractKey(contracts[0]) == k then [contracts[0]] else []) + Pool(k, contracts[1..])
  }

  function Ids(contracts: seq<Contract>): (ids: seq<nat>)
    ensures |ids| == |contracts|
    ensures forall i :: 0 <= i < |ids| ==> ids[i] == contracts[i].id
  {
    seq(|contracts|, i requires 0 <= i < |contracts| => contracts[i].id)
  }

  function Cohort(k: CohortKey, subjects: seq<Subject>): (members: seq<Subject>)
    ensures |members| <= |subjects|
    ensures forall s :: s in members <==> s in subjects && KeyOf(s) == k
  {
    if subjects == [] then []
    else
      var last := subjects[|subjects| - 1];
      Cohort(k, subjects[..|subjects| - 1]) + (if KeyOf(last) == k then [last] else [])
  }

  // ---- Capacity ----

  /** The confirmed allocations of one kind of subject on a contract. */
  function Confirmed(allocations: seq<Allocation>, kind: Kind, contract: nat): int {
    if allocations == [] then 0
    else
      var last := allocations[|allocations| - 1];
      Confirmed(allocations[..|allocations| - 1], kind, contract)
      + (if last.subject.kind == kind && last.contract == contract then last.amount else 0)
  }

  function Left(c: Contract, kind: Kind, allocations: seq<Allocation>): int {
    c.gross - Confirmed(allocations, kind, c.id)
  }

  /** The contracts of a pool that can still take the amount. */
  function Viable(pool: seq<Contract>, kind: Kind, amount: int, allocations: seq<Allocation>): (v: seq<Contract>)
    ensures |v| <= |pool|
    ensures forall c :: c in v <==> c in pool && amount <= Left(c, kind, allocations)
  {
    if pool == [] then []
    else (if amount <= Left(pool[0], kind, allocations) then [pool[0]] else [])
         + Viable(pool[1..], kind, amount, allocations)
  }

  // ---- The cohort snapshot ----

  predicate AllDated(contracts: seq<Contract>) { forall c :: c in contracts ==> c.date.Some? }

  predicate AllSubjectsDated(subjects: seq<Subject>) { forall s :: s in subjects ==> s.date.Some? }

  /** Two or more subjects compete for a contract that can take one of them, and a date is missing. */
  predicate Undefined(members: seq<Subject>, pool: seq<Contract>, kind: Kind, amount: int, base: seq<Allocation>) {
    |members| >= 2 && pool != [] &&
    var viable := Viable(pool, kind, amount, base);
    viable != [] && !(AllSubjectsDated(members) && AllDated(viable))
  }

  /** Contracts and subjects that differ in nothing but their identities, which tell them apart. */
  predicate Equivalent(members: seq<Subject>, pool: seq<Contract>) {
    && (forall c :: c in pool ==> c.no != "" && Filled(c.party.raw))
    && (forall i, j :: 0 <= i < j < |pool| ==> ContractIdentity(pool[i]) != ContractIdentity(pool[j]))
    && (forall c, d :: c in pool && d in pool ==> ContractStateOf(c) == ContractStateOf(d))
    && (forall s :: s in members ==> Identity(s).Some?)
    && (forall i, j :: 0 <= i < j < |members| ==> Identity(members[i]) != Identity(members[j]))
    && (forall s, t :: s in members && t in members ==> StateOf(s) == StateOf(t))
  }

  /** A complete one-to-one cohort in which every pairing has the same effect. */
  predicate Interchangeable(members: seq<Subject>, pool: seq<Contract>, kind: Kind, amount: int,
      base: seq<Allocation>) {
    && |pool| == |members|
    && |pool| >= 2
    && (forall c :: c in pool ==> Left(c, kind, base) == amount)
    && Equivalent(members, pool)
  }

  function Position<T(==)>(x: T, s: seq<T>): (i: nat)
    requires x in s
    ensures i < |s| && s[i] == x
  {
    if s[0] == x then 0 else 1 + Position(x, s[1..])
  }

  /** The canonical pairing: members by identity against contracts by (number, counterparty). */
  function Partner(s: Subject, members: seq<Subject>, pool: seq<Contract>): (c: Contract)
    requires s in members && |members| == |pool|
    ensures c in pool
  {
    var orderedMembers := SortBy(members, IdentityKey);
    var orderedPool := SortBy(pool, ContractIdentity);
    assert s in multiset(orderedMembers);
    var c := orderedPool[Position(s, orderedMembers)];
    assert c in multiset(orderedPool);
    c
  }

  datatype Plan = Open | Blocked | Canonical(contract: Contract)

  function PlanFor(s: Subject, members: seq<Subject>, pool: seq<Contract>, kind: Kind, base: seq<Allocation>): Plan
    requires s in members
  {
    if !Undefined(members, pool, kind, s.amount, base) then Open
    else if !Interchangeable(members, pool, kind, s.amount, base) then Blocked
    else Canonical(Partner(s, members, pool))
  }

  // ---- One decision ----

  datatype Decision =
    | NoCandidate
    | CapacityExceeded
    | NeedsHuman
    | Confirm(contract: Contract, basis: Basis)

  function ChronologyKey(c: Contract): Key { [Num(c.date.GetOr(MIN_DATE)), Text(c.no), Num(c.id)] }

  /** The first contract with the least (date, number, id). */
  function Earliest(v: seq<Contract>): (c: Contract)
    requires v != []
    ensures c in v
  {
    if |v| == 1 then v[0]
    else
      var c := Earliest(v[..|v| - 1]);
      if Before(ChronologyKey(v[|v| - 1]), ChronologyKey(c)) then v[|v| - 1] else c
  }

  function Decide(s: Subject, plan: Plan, pool: seq<Contract>, kind: Kind, allocations: seq<Allocation>): Decision {
    if pool == [] then NoCandidate
    else
      match plan
      case Canonical(c) => Confirm(c, EquivalentCanonical)
      case Blocked => NeedsHuman
      case Open =>
        var viable := Viable(pool, kind, s.amount, allocations);
        var basis := if |pool| > 1 then Chronological else Unique;
        if viable == [] then CapacityExceeded
        else if |viable| == 1 then Confirm(viable[0], basis)
        else if !AllDated(viable) || s.date.None? then NeedsHuman
        else Confirm(Earliest(viable), basis)
  }

  function StatusOf(d: Decision): Status {
    match d
    case NoCandidate => Unmatched
    case CapacityExceeded => HumanConfirmationRequired
    case NeedsHuman => HumanConfirmationRequired
    case Confirm(_, _) => AutoConfirmed
  }

  function CandidateRows(caseId: nat, contracts: seq<Contract>): seq<Candidate> {
    seq(|contracts|, i requires 0 <= i < |contracts| => Candidate(caseId, contracts[i].id))
  }

  /** The rows one decision appends. */
  function Write(w: Ledger, s: Subject, pool: seq<Contract>, d: Decision): Ledger
    requires d.CapacityExceeded? ==> pool != []
  {
    var caseId := |w.cases|;
    var filed := w.(cases := w.cases + [MatchCase(s.Ref(), StatusOf(d))]);
    match d
    case NoCandidate => filed
    case CapacityExceeded =>
      var first := pool[0];
      filed.(candidates := w.candidates + CandidateRows(caseId, pool),
              tasks := w.tasks
                + [CapacityTask(s.Ref(), first.id, Confirmed(w.allocations, s.Kind(), first.id), s.amount,
                                first.gross)],
              events := w.events + [CapacityExceededEvent(s.Ref(), first.id)])
    case NeedsHuman =>
      filed.(candidates := w.candidates + CandidateRows(caseId, pool),
              events := w.events + [HumanConfirmationNeeded(s.Ref(), Ids(pool))])
    case Confirm(c, basis) =>
      filed.(candidates := w.candidates + [Candidate(caseId, c.id)],
              allocations := w.allocations + [Allocation(s.Ref(), c.id, caseId, s.amount, basis, false)],
              events := w.events + [MatchAutoConfirmed(s.Ref(), c.id, s.amount)])
  }

  // ---- The whole pass ----

  ghost predicate DistinctContracts(contracts: seq<Contract>) {
    forall i, j :: 0 <= i < j < |contracts| ==> contracts[i].id != contracts[j].id
  }

  ghost predicate DistinctSubjects(subjects: seq<Subject>) {
    forall i, j :: 0 <= i < j < |subjects| ==> subjects[i].id != subjects[j].id
  }

  /** One run of the pass: the unresolved subjects in processing order, the contracts in
      chronological order, and the ledger it starts from. */
  datatype Pass = Pass(kind: Kind, contracts: seq<Contract>, subjects: seq<Subject>, base: Ledger)
  {
    function PoolAt(i: nat): seq<Contract>
      requires i < |subjects|
    {
      Pool(KeyOf(subjects[i]), contracts)
    }

    function PlanAt(i: nat): Plan
      requires i < |subjects|
    {
      PlanFor(subjects[i], Cohort(KeyOf(subjects[i]), subjects), PoolAt(i), kind, base.allocations)
    }

    /** The ledger once the first n subjects are decided. */
    function After(n: nat): Ledger
      requires n <= |subjects|
      decreases n, 0
    {
      if n == 0 then base else Write(After(n - 1), subjects[n - 1], PoolAt(n - 1), DecisionAt(n - 1))
    }

    function DecisionAt(i: nat): (d: Decision)
      requires i < |subjects|
      ensures d.CapacityExceeded? ==> PoolAt(i) != []
      decreases i, 1
    {
      Decide(subjects[i], PlanAt(i), PoolAt(i), kind, After(i).allocations)
    }

    /** What the callers hand over: ids identify contracts, refs identify subjects, one kind only. */
    ghost predicate WellFormed() {
      && DistinctContracts(contracts)
      && DistinctSubjects(subjects)
      && (forall s :: s in subjects ==> s.Kind() == kind)
    }
  }
}
