/**
 The matching engine over whole runs: contracts and subjects arrive, passes are run, sales
 cases are proposed and humans confirm, in any order and any number of times.
 */
module MatchingSystem {
  import opened Options
  import opened Keys
  import opened Sequences
  import opened MatchingRules
  import opened MatchingTheorems

  datatype World = World(contracts: seq<Contract>, subjects: seq<Subject>, ledger: Ledger)

  const EMPTY: World := World([], [], Ledger([], [], [], [], []))

  // ---- A pass over the stored rows ----

  predicate HasCase(cases: seq<MatchCase>, ref: Ref) { exists i :: 0 <= i < |cases| && cases[i].subject == ref }

  /** The procurement subjects of one kind, in processing order. */
  function Listing(kind: Kind, subjects: seq<Subject>): seq<Subject> {
    SortBy(Keep(subjects, (s: Subject) => s.Kind() == kind && s.procurement), SubjectOrder)
  }

  function EligibleOf(listing: seq<Subject>, contracts: seq<Contract>): seq<Subject> {
    Keep(listing, (s: Subject) => Eligible(s, contracts))
  }

  function UnresolvedOf(eligible: seq<Subject>, cases: seq<MatchCase>): seq<Subject> {
    Keep(eligible, (s: Subject) => !HasCase(cases, s.Ref()))
  }

  function Snapshot(w: World): seq<Contract> { SortBy(w.contracts, ContractOrder) }

  function PassOf(kind: Kind, w: World): Pass {
    var contracts := Snapshot(w);
    Pass(kind, contracts, UnresolvedOf(EligibleOf(Listing(kind, w.subjects), contracts), w.ledger.cases), w.ledger)
  }

  function MatchAll(kind: Kind, w: World): World {
    w.(ledger := PassOf(kind, w).After(|PassOf(kind, w).subjects|))
  }

  // ---- Human confirmation ----

  datatype ConfirmError = CaseNotFound | NotPending | ContractNotFound | SubjectNotFound | WrongDirection | OverCapacity
  datatype ConfirmResult = Done(world: World) | Refused(error: ConfirmError)

  function FindContract(contracts: seq<Contract>, id: nat): (r: Option<Contract>)
    ensures r.Some? ==> r.value in contracts && r.value.id == id
    ensures r.None? ==> forall c :: c in contracts ==> c.id != id
  {
    if contracts == [] then None
    else if contracts[0].id == id then Some(contracts[0])
    else FindContract(contracts[1..], id)
  }

  function FindSubject(subjects: seq<Subject>, ref: Ref): (r: Option<Subject>)
    ensures r.Some? ==> r.value in subjects && r.value.Ref() == ref
    ensures r.None? ==> forall s :: s in subjects ==> s.Ref() != ref
  {
    if subjects == [] then None
    else if subjects[0].Ref() == ref then Some(subjects[0])
    else FindSubject(subjects[1..], ref)
  }

  function ConfirmMatch(w: World, caseId: nat, contract: nat): ConfirmResult {
    var ledger := w.ledger;
    if caseId >= |ledger.cases| then Refused(CaseNotFound)
    else if !ledger.cases[caseId].status.HumanConfirmationRequired? then Refused(NotPending)
    else
      var ref := ledger.cases[caseId].subject;
      var c, s := FindContract(w.contracts, contract), FindSubject(w.subjects, ref);
      if c.None? then Refused(ContractNotFound)
      else if s.None? then Refused(SubjectNotFound)
      else if !s.value.procurement then Refused(WrongDirection)
      else if Confirmed(ledger.allocations, ref.kind, contract) + s.value.amount > c.value.gross
        then Refused(OverCapacity)
      else Done(w.(ledger := ledger.(
        cases := ledger.cases[caseId := MatchCase(ref, Resolved)],
        allocations := ledger.allocations + [Allocation(ref, contract, caseId, s.value.amount, Unique, true)],
        events := ledger.events + [MatchHumanConfirmed(caseId, contract)])))
  }

  // ---- Runs ----

  datatype Action =
    | AddContract(contract: Contract)
    | AddSubject(subject: Subject)
    | ProposeSalesCase(ref: Ref)
    | Match(kind: Kind)
    | HumanConfirm(caseId: nat, contractId: nat)

  function Apply(w: World, a: Action): World {
    match a
    case AddContract(c) => if FindContract(w.contracts, c.id).None? then w.(contracts := w.contracts + [c]) else w
    case AddSubject(s) => if FindSubject(w.subjects, s.Ref()).None? then w.(subjects := w.subjects + [s]) else w
    case ProposeSalesCase(ref) =>
      var s := FindSubject(w.subjects, ref);
      if s.Some? && !s.value.procurement && !HasCase(w.ledger.cases, ref)
      then w.(ledger := w.ledger.(cases := w.ledger.cases + [MatchCase(ref, HumanConfirmationRequired)]))
      else w
    case Match(kind) => MatchAll(kind, w)
    case HumanConfirm(caseId, contract) =>
      var r := ConfirmMatch(w, caseId, contract);
      if r.Done? then r.world else w
  }

  function Run(w: World, actions: seq<Action>): World {
    if actions == [] then w else Apply(Run(w, actions[..|actions| - 1]), actions[|actions| - 1])
  }

  // ---- The invariant ----

  ghost predicate DistinctRefs(subjects: seq<Subject>) {
    forall i, j :: 0 <= i < j < |subjects| ==> subjects[i].Ref() != subjects[j].Ref()
  }

  predicate Settled(status: Status) { status.AutoConfirmed? || status.Resolved? }

  /** At most one case per subject, each about a stored subject. */
  ghost predicate CasesSound(subjects: seq<Subject>, cases: seq<MatchCase>) {
    && (forall i, j :: 0 <= i < j < |cases| ==> cases[i].subject != cases[j].subject)
    && (forall i :: 0 <= i < |cases| ==> Known(subjects, cases[i].subject))
  }

  ghost predicate Known(subjects: seq<Subject>, ref: Ref) { exists s :: s in subjects && s.Ref() == ref }

  /** An allocation belongs to a settled case, carries its procurement subject's full amount, and
      was made by a human exactly when the case was resolved by one. */
  ghost predicate AllocationSound(contracts: seq<Contract>, subjects: seq<Subject>, cases: seq<MatchCase>,
      a: Allocation) {
    && a.caseId < |cases|
    && cases[a.caseId].subject == a.subject
    && cases[a.caseId].status == (if a.human then Resolved else AutoConfirmed)
    && (exists c :: c in contracts && c.id == a.contract)
    && (exists s :: s in subjects && s.Ref() == a.subject && s.procurement && s.amount == a.amount)
  }

  ghost predicate AllocationsSound(contracts: seq<Contract>, subjects: seq<Subject>, w: Ledger) {
    forall a :: a in w.allocations ==> AllocationSound(contracts, subjects, w.cases, a)
  }

  /** A settled case owns exactly one allocation; no other case owns any. */
  ghost predicate OnePerSettledCase(w: Ledger) {
    && (forall i, j :: 0 <= i < j < |w.allocations| ==> w.allocations[i].caseId != w.allocations[j].caseId)
    && (forall i :: 0 <= i < |w.cases| && Settled(w.cases[i].status) ==>
          exists a :: a in w.allocations && a.caseId == i)
  }

  ghost predicate Inv(w: World) {
    && DistinctContracts(w.contracts)
    && DistinctRefs(w.subjects)
    && CasesSound(w.subjects, w.ledger.cases)
    && AllocationsSound(w.contracts, w.subjects, w.ledger)
    && OnePerSettledCase(w.ledger)
    && Within(w.contracts, InvoiceKind, w.ledger.allocations)
    && Within(w.contracts, PaymentKind, w.ledger.allocations)
  }

  // ---- The pass handed over by the callers is well formed ----

  lemma {:induction false} KeepDistinctRefs(s: seq<Subject>, f: Subject -> bool)
    requires DistinctRefs(s)
    ensures DistinctRefs(Keep(s, f))
  {
    if s == [] {
    } else {
      var front, last := s[..|s| - 1], s[|s| - 1];
      KeepDistinctRefs(front, f);
      forall x | x in Keep(front, f)
        ensures x.Ref() != last.Ref()
      {
        var i :| 0 <= i < |front| && front[i] == x;
      }
    }
  }

  lemma PermutedDistinctRefs(a: seq<Subject>, b: seq<Subject>)
    requires DistinctRefs(a) && multiset(a) == multiset(b)
    ensures DistinctRefs(b)
  {
    DistinctPermutes(a, b);
    forall i, j | 0 <= i < j < |b|
      ensures b[i].Ref() != b[j].Ref()
    {
      assert b[i] in multiset(a) && b[j] in multiset(a);
      var x :| 0 <= x < |a| && a[x] == b[i];
      var y :| 0 <= y < |a| && a[y] == b[j];
      assert x != y;
    }
  }

  lemma PermutedDistinctContracts(a: seq<Contract>, b: seq<Contract>)
    requires DistinctContracts(a) && multiset(a) == multiset(b)
    ensures DistinctContracts(b)
  {
    DistinctPermutes(a, b);
    forall i, j | 0 <= i < j < |b|
      ensures b[i].id != b[j].id
    {
      assert b[i] in multiset(a) && b[j] in multiset(a);
      var x :| 0 <= x < |a| && a[x] == b[i];
      var y :| 0 <= y < |a| && a[y] == b[j];
      assert x != y;
    }
  }

  lemma ListingMembers(kind: Kind, subjects: seq<Subject>)
    requires DistinctRefs(subjects)
    ensures DistinctRefs(Listing(kind, subjects))
    ensures forall s :: s in Listing(kind, subjects) <==> s in subjects && s.Kind() == kind && s.procurement
  {
    var f := (s: Subject) => s.Kind() == kind && s.procurement;
    KeepDistinctRefs(subjects, f);
    PermutedDistinctRefs(Keep(subjects, f), SortBy(Keep(subjects, f), SubjectOrder));
    SameMembers(Keep(subjects, f), SortBy(Keep(subjects, f), SubjectOrder));
  }

  lemma SnapshotMembers(w: World)
    requires DistinctContracts(w.contracts)
    ensures DistinctContracts(Snapshot(w)) && Ordered(Snapshot(w), ContractOrder)
    ensures forall c :: c in Snapshot(w) <==> c in w.contracts
  {
    PermutedDistinctContracts(w.contracts, Snapshot(w));
    SortByOrdered(w.contracts, ContractOrder);
    SameMembers(w.contracts, Snapshot(w));
  }

  /** Who takes part in a pass: the eligible procurement subjects without a case. */
  ghost predicate Participates(kind: Kind, w: World, s: Subject) {
    s in w.subjects && s.Kind() == kind && s.procurement && Eligible(s, w.contracts)
      && !HasCase(w.ledger.cases, s.Ref())
  }

  lemma EligibleForgetsListing(s: Subject, a: seq<Contract>, b: seq<Contract>)
    requires forall c :: c in a <==> c in b
    ensures Eligible(s, a) <==> Eligible(s, b)
  {
    if Eligible(s, a) {
      var i :| 0 <= i < |a| && a[i].party.norm == s.party.norm;
      assert a[i] in b;
    }
    if Eligible(s, b) {
      var i :| 0 <= i < |b| && b[i].party.norm == s.party.norm;
      assert b[i] in a;
    }
  }

  lemma PassOfWellFormed(kind: Kind, w: World)
    requires DistinctContracts(w.contracts) && DistinctRefs(w.subjects)
    ensures PassOf(kind, w).WellFormed() && Ordered(PassOf(kind, w).contracts, ContractOrder)
    ensures forall c :: c in PassOf(kind, w).contracts <==> c in w.contracts
    ensures forall s :: s in PassOf(kind, w).subjects <==> Participates(kind, w, s)
  {
    var contracts := Snapshot(w);
    var listing := Listing(kind, w.subjects);
    SnapshotMembers(w);
    ListingMembers(kind, w.subjects);
    KeepDistinctRefs(listing, (s: Subject) => Eligible(s, contracts));
    KeepDistinctRefs(EligibleOf(listing, contracts), (s: Subject) => !HasCase(w.ledger.cases, s.Ref()));
    forall s
      ensures Eligible(s, contracts) <==> Eligible(s, w.contracts)
    {
      EligibleForgetsListing(s, contracts, w.contracts);
    }
    var subjects := PassOf(kind, w).subjects;
    forall i, j | 0 <= i < j < |subjects|
      ensures subjects[i].id != subjects[j].id
    {
      assert subjects[i] in subjects && subjects[j] in subjects;
      assert subjects[i].Ref() != subjects[j].Ref();
    }
  }

  // ---- Every action keeps the invariant ----

  lemma WriteCases(subjects: seq<Subject>, w: Ledger, s: Subject, pool: seq<Contract>, d: Decision)
    requires d.CapacityExceeded? ==> pool != []
    requires CasesSound(subjects, w.cases) && s in subjects && !HasCase(w.cases, s.Ref())
    ensures CasesSound(subjects, Write(w, s, pool, d).cases)
    ensures forall ref :: HasCase(Write(w, s, pool, d).cases, ref) <==> HasCase(w.cases, ref) || ref == s.Ref()
  {
    var cases := Write(w, s, pool, d).cases;
    assert cases == w.cases + [MatchCase(s.Ref(), StatusOf(d))];
    forall ref
      ensures HasCase(cases, ref) <==> HasCase(w.cases, ref) || ref == s.Ref()
    {
      if HasCase(w.cases, ref) {
        var i :| 0 <= i < |w.cases| && w.cases[i].subject == ref;
        assert cases[i].subject == ref;
      }
      assert cases[|w.cases|].subject == s.Ref();
    }
  }

  lemma WriteAllocations(contracts: seq<Contract>, subjects: seq<Subject>, w: Ledger, s: Subject, pool: seq<Contract>,
      d: Decision)
    requires d.CapacityExceeded? ==> pool != []
    requires AllocationsSound(contracts, subjects, w) && OnePerSettledCase(w)
    requires s in subjects && s.procurement && (d.Confirm? ==> d.contract in contracts)
    ensures AllocationsSound(contracts, subjects, Write(w, s, pool, d)) && OnePerSettledCase(Write(w, s, pool, d))
  {
    var w' := Write(w, s, pool, d);
    assert w'.cases == w.cases + [MatchCase(s.Ref(), StatusOf(d))];
    forall a | a in w'.allocations
      ensures AllocationSound(contracts, subjects, w'.cases, a)
    {
      if a in w.allocations {
        assert AllocationSound(contracts, subjects, w.cases, a);
      }
    }
    forall i | 0 <= i < |w'.cases| && Settled(w'.cases[i].status)
      ensures exists a :: a in w'.allocations && a.caseId == i
    {
      if i < |w.cases| {
        var a :| a in w.allocations && a.caseId == i;
        assert a in w'.allocations;
      } else {
        assert w'.allocations[|w.allocations|] in w'.allocations;
      }
    }
    forall i, j | 0 <= i < j < |w'.allocations|
      ensures w'.allocations[i].caseId != w'.allocations[j].caseId
    {
      assert w'.allocations[i] in w.allocations;
    }
  }

  /** After n decisions: the invariant, and exactly the first n subjects have gained a case. */
  ghost predicate PassInv(w: World, p: Pass, n: nat)
    requires n <= |p.subjects|
  {
    && CasesSound(w.subjects, p.After(n).cases)
    && AllocationsSound(w.contracts, w.subjects, p.After(n))
    && OnePerSettledCase(p.After(n))
    && forall ref :: HasCase(p.After(n).cases, ref) <==>
         HasCase(p.base.cases, ref) || exists i :: 0 <= i < n && p.subjects[i].Ref() == ref
  }

  lemma PassInvStep(w: World, kind: Kind, n: nat)
    requires DistinctContracts(w.contracts) && DistinctRefs(w.subjects)
    requires n < |PassOf(kind, w).subjects| && PassInv(w, PassOf(kind, w), n)
    ensures PassInv(w, PassOf(kind, w), n + 1)
  {
    hide Pass.DecisionAt, Pass.PlanAt, Pass.PoolAt, CasesSound, AllocationsSound, OnePerSettledCase, PassOf, Eligible,
      Write;
    var p := PassOf(kind, w);
    PassOfWellFormed(kind, w);
    var s, d, pool := p.subjects[n], p.DecisionAt(n), p.PoolAt(n);
    assert s in p.subjects;
    assert Participates(kind, w, s);
    assert p.base == w.ledger by { PassOfBase(kind, w); }
    assert !HasCase(p.After(n).cases, s.Ref()) by {
      assert p.WellFormed();
      assert forall i :: 0 <= i < n ==> p.subjects[i].id != s.id;
    }
    DecisionInPool(p, n);
    PoolOfSnapshot(p, n);
    WriteCases(w.subjects, p.After(n), s, pool, d);
    WriteAllocations(w.contracts, w.subjects, p.After(n), s, pool, d);
    assert p.After(n + 1) == Write(p.After(n), s, pool, d);
  }

  lemma PassOfBase(kind: Kind, w: World)
    ensures PassOf(kind, w).base == w.ledger && PassOf(kind, w).kind == kind
  {
  }

  lemma PoolOfSnapshot(p: Pass, n: nat)
    requires n < |p.subjects|
    ensures forall c :: c in p.PoolAt(n) ==> c in p.contracts
  {
  }

  lemma {:induction false} PassKeepsInv(w: World, kind: Kind, n: nat)
    requires Inv(w) && n <= |PassOf(kind, w).subjects|
    ensures PassInv(w, PassOf(kind, w), n)
  {
    hide *;
    if n == 0 {
      PassInvStart(w, kind);
    } else {
      PassKeepsInv(w, kind, n - 1);
      InvDistinct(w);
      PassInvStep(w, kind, n - 1);
    }
  }

  lemma PassInvStart(w: World, kind: Kind)
    requires Inv(w)
    ensures PassInv(w, PassOf(kind, w), 0)
  {
    hide Pass.DecisionAt, PassOf;
    PassOfBase(kind, w);
  }

  lemma InvDistinct(w: World)
    requires Inv(w)
    ensures DistinctContracts(w.contracts) && DistinctRefs(w.subjects)
  {
  }

  /** A pass of one kind moves nothing of the other kind. */
  lemma {:induction false} OtherKindUnmoved(p: Pass, n: nat, kind: Kind, contract: nat)
    requires p.WellFormed() && n <= |p.subjects| && kind != p.kind
    ensures Confirmed(p.After(n).allocations, kind, contract) == Confirmed(p.base.allocations, kind, contract)
    ensures Used(p.After(n).allocations, kind, contract) <==> Used(p.base.allocations, kind, contract)
  {
    hide Pass.DecisionAt, Confirmed;
    if n == 0 {
    } else {
      OtherKindUnmoved(p, n - 1, kind, contract);
      var before, s, d := p.After(n - 1), p.subjects[n - 1], p.DecisionAt(n - 1);
      assert s in p.subjects;
      if d.Confirm? {
        var a := Allocation(s.Ref(), d.contract.id, |before.cases|, s.amount, d.basis, false);
        assert p.After(n).allocations == before.allocations + [a];
        ConfirmedAppend(before.allocations, a, kind, contract);
        if Used(before.allocations, kind, contract) {
          var b :| b in before.allocations && b.subject.kind == kind && b.contract == contract;
          assert b in p.After(n).allocations;
        }
      }
    }
  }

  lemma MatchKeepsInv(w: World, kind: Kind)
    requires Inv(w)
    ensures Inv(MatchAll(kind, w))
  {
    hide PassOf, Pass.After, CasesSound, AllocationsSound, OnePerSettledCase, Confirmed, Used;
    var p := PassOf(kind, w);
    var n := |p.subjects|;
    PassOfWellFormed(kind, w);
    PassOfBase(kind, w);
    PassKeepsInv(w, kind, n);
    PassWithin(p, n);
    forall other: Kind, c | other != kind && c in w.contracts
      ensures Confirmed(p.After(n).allocations, other, c.id) == Confirmed(w.ledger.allocations, other, c.id)
      ensures Used(p.After(n).allocations, other, c.id) <==> Used(w.ledger.allocations, other, c.id)
    {
      OtherKindUnmoved(p, n, other, c.id);
    }
  }

  lemma ConfirmCases(w: World, caseId: nat, contract: nat)
    requires CasesSound(w.subjects, w.ledger.cases) && ConfirmMatch(w, caseId, contract).Done?
    ensures CasesSound(w.subjects, ConfirmMatch(w, caseId, contract).world.ledger.cases)
  {
  }

  lemma ConfirmAllocations(w: World, caseId: nat, contract: nat)
    requires AllocationsSound(w.contracts, w.subjects, w.ledger) && OnePerSettledCase(w.ledger)
    requires ConfirmMatch(w, caseId, contract).Done?
    ensures var w' := ConfirmMatch(w, caseId, contract).world;
            AllocationsSound(w'.contracts, w'.subjects, w'.ledger) && OnePerSettledCase(w'.ledger)
  {
    var w' := ConfirmMatch(w, caseId, contract).world;
    var cases, cases' := w.ledger.cases, w'.ledger.cases;
    var last := w'.ledger.allocations[|w.ledger.allocations|];
    forall a | a in w'.ledger.allocations
      ensures AllocationSound(w'.contracts, w'.subjects, cases', a)
    {
      if a in w.ledger.allocations {
        assert AllocationSound(w.contracts, w.subjects, cases, a);
        assert a.caseId != caseId;
      }
    }
    forall i | 0 <= i < |cases'| && Settled(cases'[i].status)
      ensures exists a :: a in w'.ledger.allocations && a.caseId == i
    {
      if i == caseId {
        assert last in w'.ledger.allocations;
      } else {
        var a :| a in w.ledger.allocations && a.caseId == i;
        assert a in w'.ledger.allocations;
      }
    }
    forall i, j | 0 <= i < j < |w'.ledger.allocations|
      ensures w'.ledger.allocations[i].caseId != w'.ledger.allocations[j].caseId
    {
      var a := w'.ledger.allocations[i];
      assert a in w.ledger.allocations;
      assert AllocationSound(w.contracts, w.subjects, cases, a);
    }
  }

  lemma ConfirmWithin(w: World, caseId: nat, contract: nat, kind: Kind)
    requires DistinctContracts(w.contracts) && Within(w.contracts, kind, w.ledger.allocations)
    requires ConfirmMatch(w, caseId, contract).Done?
    ensures Within(w.contracts, kind, ConfirmMatch(w, caseId, contract).world.ledger.allocations)
  {
    var before, now := w.ledger.allocations, ConfirmMatch(w, caseId, contract).world.ledger.allocations;
    var last := now[|before|];
    assert now == before + [last];
    forall c | c in w.contracts && (c.gross >= 0 || Used(now, kind, c.id))
      ensures Confirmed(now, kind, c.id) <= c.gross
    {
      ConfirmedAppend(before, last, kind, c.id);
      if last.subject.kind == kind && c.id == contract {
        assert c == FindContract(w.contracts, contract).value;
      } else if Used(now, kind, c.id) {
        var a :| a in now && a.subject.kind == kind && a.contract == c.id;
        assert a in before;
      }
    }
  }

  lemma ConfirmKeepsInv(w: World, caseId: nat, contract: nat)
    requires Inv(w) && ConfirmMatch(w, caseId, contract).Done?
    ensures Inv(ConfirmMatch(w, caseId, contract).world)
  {
    var w' := ConfirmMatch(w, caseId, contract).world;
    assert w'.contracts == w.contracts && w'.subjects == w.subjects;
    hide ConfirmMatch, CasesSound, AllocationsSound, OnePerSettledCase, Within;
    ConfirmCases(w, caseId, contract);
    ConfirmAllocations(w, caseId, contract);
    ConfirmWithin(w, caseId, contract, InvoiceKind);
    ConfirmWithin(w, caseId, contract, PaymentKind);
  }

  lemma {:induction false} UnusedSumsToZero(allocations: seq<Allocation>, kind: Kind, contract: nat)
    requires !Used(allocations, kind, contract)
    ensures Confirmed(allocations, kind, contract) == 0
  {
    if allocations == [] {
    } else {
      var front := allocations[..|allocations| - 1];
      assert allocations[|allocations| - 1] in allocations;
      assert !Used(front, kind, contract) by {
        forall a | a in front ensures a in allocations {}
      }
      UnusedSumsToZero(front, kind, contract);
    }
  }

  lemma AddContractKeepsInv(w: World, c: Contract)
    requires Inv(w) && FindContract(w.contracts, c.id).None?
    ensures Inv(w.(contracts := w.contracts + [c]))
  {
    var contracts := w.contracts + [c];
    forall a | a in w.ledger.allocations
      ensures AllocationSound(contracts, w.subjects, w.ledger.cases, a) && a.contract != c.id
    {
      assert AllocationSound(w.contracts, w.subjects, w.ledger.cases, a);
      var d :| d in w.contracts && d.id == a.contract;
      assert d in contracts;
    }
    UnusedSumsToZero(w.ledger.allocations, InvoiceKind, c.id);
    UnusedSumsToZero(w.ledger.allocations, PaymentKind, c.id);
  }

  lemma CasesSoundWithSubject(subjects: seq<Subject>, s: Subject, cases: seq<MatchCase>)
    requires CasesSound(subjects, cases)
    ensures CasesSound(subjects + [s], cases)
  {
    forall i | 0 <= i < |cases|
      ensures Known(subjects + [s], cases[i].subject)
    {
      assert Known(subjects, cases[i].subject);
      var t :| t in subjects && t.Ref() == cases[i].subject;
      assert t in subjects + [s];
    }
  }

  lemma AllocationSoundWithSubject(contracts: seq<Contract>, subjects: seq<Subject>, s: Subject, cases: seq<MatchCase>,
      a: Allocation)
    requires AllocationSound(contracts, subjects, cases, a)
    ensures AllocationSound(contracts, subjects + [s], cases, a)
  {
    var t :| t in subjects && t.Ref() == a.subject && t.procurement && t.amount == a.amount;
    assert t in subjects + [s];
  }

  lemma AddSubjectKeepsInv(w: World, s: Subject)
    requires Inv(w) && FindSubject(w.subjects, s.Ref()).None?
    ensures Inv(w.(subjects := w.subjects + [s]))
  {
    hide CasesSound, AllocationSound, OnePerSettledCase, Within, DistinctContracts;
    CasesSoundWithSubject(w.subjects, s, w.ledger.cases);
    forall a | a in w.ledger.allocations
      ensures AllocationSound(w.contracts, w.subjects + [s], w.ledger.cases, a)
    {
      AllocationSoundWithSubject(w.contracts, w.subjects, s, w.ledger.cases, a);
    }
  }

  lemma ProposalKeepsInv(w: World, ref: Ref)
    requires Inv(w)
    ensures Inv(Apply(w, ProposeSalesCase(ref)))
  {
    var w' := Apply(w, ProposeSalesCase(ref));
    forall a | a in w.ledger.allocations
      ensures AllocationSound(w'.contracts, w'.subjects, w'.ledger.cases, a)
    {
      assert AllocationSound(w.contracts, w.subjects, w.ledger.cases, a);
    }
  }

  lemma ApplyKeepsInv(w: World, a: Action)
    requires Inv(w)
    ensures Inv(Apply(w, a))
  {
    hide Inv, ConfirmMatch, MatchAll;
    match a
    case AddContract(c) => if FindContract(w.contracts, c.id).None? { AddContractKeepsInv(w, c); }
    case AddSubject(s) => if FindSubject(w.subjects, s.Ref()).None? { AddSubjectKeepsInv(w, s); }
    case ProposeSalesCase(ref) => ProposalKeepsInv(w, ref);
    case Match(kind) => MatchKeepsInv(w, kind);
    case HumanConfirm(caseId, contract) =>
      if ConfirmMatch(w, caseId, contract).Done? { ConfirmKeepsInv(w, caseId, contract); }
  }

  /** Every run from nothing, through any actions, satisfies the invariant: one case per subject,
      settled cases own exactly one full allocation, and no contract is over-allocated. */
  lemma {:induction false} EveryRunKeepsInv(actions: seq<Action>)
    ensures Inv(Run(EMPTY, actions))
  {
    if actions == [] {
    } else {
      hide Inv, Apply;
      EveryRunKeepsInv(actions[..|actions| - 1]);
      ApplyKeepsInv(Run(EMPTY, actions[..|actions| - 1]), actions[|actions| - 1]);
    }
  }

  /** Capacity safety over every run. */
  lemma NeverOverAllocated(actions: seq<Action>, kind: Kind, c: Contract)
    requires var w := Run(EMPTY, actions); c in w.contracts && (c.gross >= 0 || Used(w.ledger.allocations, kind, c.id))
    ensures Confirmed(Run(EMPTY, actions).ledger.allocations, kind, c.id) <= c.gross
  {
    hide Run;
    EveryRunKeepsInv(actions);
  }

  /** How many allocations a case owns. */
  ghost function OwnedBy(allocations: seq<Allocation>, caseId: nat): nat {
    |set i | 0 <= i < |allocations| && allocations[i].caseId == caseId|
  }

  ghost predicate OwnersSettled(w: Ledger) {
    forall a :: a in w.allocations ==> a.caseId < |w.cases| && Settled(w.cases[a.caseId].status)
  }

  lemma CaseOwns(w: Ledger, caseId: nat)
    requires OnePerSettledCase(w) && OwnersSettled(w) && caseId < |w.cases|
    ensures OwnedBy(w.allocations, caseId) == (if Settled(w.cases[caseId].status) then 1 else 0)
  {
    hide Settled;
    var allocations := w.allocations;
    var owned := set i | 0 <= i < |allocations| && allocations[i].caseId == caseId;
    if Settled(w.cases[caseId].status) {
      var a :| a in allocations && a.caseId == caseId;
      var i :| 0 <= i < |allocations| && allocations[i] == a;
      assert owned == {i};
    } else {
      assert forall i :: 0 <= i < |allocations| ==> allocations[i] in allocations;
      assert owned == {};
    }
  }

  /** Over every run: a case names a subject no other case names, and owns one allocation of that
      subject's full amount if it is settled and none if it is not. */
  lemma OneCaseOneAllocation(actions: seq<Action>, caseId: nat)
    requires caseId < |Run(EMPTY, actions).ledger.cases|
    ensures var w := Run(EMPTY, actions); var case_ := w.ledger.cases[caseId];
            && OwnedBy(w.ledger.allocations, caseId) == (if Settled(case_.status) then 1 else 0)
            && (forall a :: a in w.ledger.allocations && a.caseId == caseId ==>
                  a.subject == case_.subject
                    && exists s :: s in w.subjects && s.Ref() == a.subject && s.procurement && s.amount == a.amount)
            && (forall j :: 0 <= j < |w.ledger.cases| && j != caseId ==> w.ledger.cases[j].subject != case_.subject)
  {
    hide Run, OwnedBy, Within, DistinctContracts, OnePerSettledCase;
    EveryRunKeepsInv(actions);
    CaseOwns(Run(EMPTY, actions).ledger, caseId);
  }

  // ---- Cases only ever move from pending to resolved ----

  /** Nothing is withdrawn: old allocations stay, old cases stay as they are or are resolved by a human. */
  ghost predicate Evolves(w: Ledger, w': Ledger) {
    && |w.cases| <= |w'.cases|
    && w.allocations <= w'.allocations
    && forall i :: 0 <= i < |w.cases| ==>
         || w'.cases[i] == w.cases[i]
         || (w.cases[i].status.HumanConfirmationRequired? && w'.cases[i] == w.cases[i].(status := Resolved))
  }

  lemma {:induction false} PassEvolves(p: Pass, n: nat)
    requires n <= |p.subjects|
    ensures p.base.cases <= p.After(n).cases && p.base.allocations <= p.After(n).allocations
    ensures |p.After(n).cases| == |p.base.cases| + n
    ensures forall i :: |p.base.cases| <= i < |p.After(n).cases| ==> !p.After(n).cases[i].status.Resolved?
  {
    hide Pass.DecisionAt;
    if n == 0 {
    } else {
      PassEvolves(p, n - 1);
    }
  }

  /** One action resolves at most pending cases, and opens no case as resolved. */
  lemma ApplyEvolves(w: World, a: Action)
    ensures Evolves(w.ledger, Apply(w, a).ledger)
    ensures forall i :: |w.ledger.cases| <= i < |Apply(w, a).ledger.cases| ==>
        !Apply(w, a).ledger.cases[i].status.Resolved?
  {
    if a.Match? {
      hide PassOf, Pass.After;
      PassOfBase(a.kind, w);
      PassEvolves(PassOf(a.kind, w), |PassOf(a.kind, w).subjects|);
    }
  }

  lemma {:induction false} RunEvolves(w: World, actions: seq<Action>)
    ensures Evolves(w.ledger, Run(w, actions).ledger)
  {
    if actions == [] {
    } else {
      hide Apply;
      RunEvolves(w, actions[..|actions| - 1]);
      ApplyEvolves(Run(w, actions[..|actions| - 1]), actions[|actions| - 1]);
    }
  }

  // ---- A second pass writes nothing ----

  /** Once a pass has run, no later pass over the same contracts and subjects finds anything to
      decide, whatever confirmations and other passes came in between. */
  lemma SecondPassWritesNothing(kind: Kind, w: World, later: World)
    requires Inv(w)
    requires later.contracts == w.contracts && later.subjects == w.subjects
    requires Evolves(MatchAll(kind, w).ledger, later.ledger)
    ensures PassOf(kind, later).subjects == [] && MatchAll(kind, later) == later
  {
    hide PassOf, Pass.After, Inv;
    InvDistinct(w);
    var p, q := PassOf(kind, w), PassOf(kind, later);
    PassOfWellFormed(kind, w);
    PassOfWellFormed(kind, later);
    PassOfBase(kind, later);
    PassOfBase(kind, w);
    PassKeepsInv(w, kind, |p.subjects|);
    forall s | s in w.subjects && s.Kind() == kind && s.procurement && Eligible(s, w.contracts)
      ensures HasCase(later.ledger.cases, s.Ref())
    {
      var done := MatchAll(kind, w).ledger.cases;
      if !HasCase(w.ledger.cases, s.Ref()) {
        assert Participates(kind, w, s);
        var i :| 0 <= i < |p.subjects| && p.subjects[i] == s;
      }
      var j :| 0 <= j < |done| && done[j].subject == s.Ref();
      assert later.ledger.cases[j].subject == s.Ref();
    }
    assert q.subjects != [] ==> q.subjects[0] in q.subjects && Participates(kind, later, q.subjects[0]);
    StartsAtBase(q);
  }

  // ---- Listing order does not matter ----

  lemma ContractOrderIdentifies(contracts: seq<Contract>)
    requires DistinctContracts(contracts)
    ensures KeysIdentify(contracts, ContractOrder)
  {
    forall c, d | c in contracts && d in contracts && ContractOrder(c) == ContractOrder(d)
      ensures c == d
    {
      assert ContractOrder(c)[3] == Num(c.id) && ContractOrder(d)[3] == Num(d.id);
    }
  }

  lemma SubjectOrderIdentifies(kind: Kind, subjects: seq<Subject>)
    requires DistinctRefs(subjects) && forall s :: s in subjects ==> s.Kind() == kind
    ensures KeysIdentify(subjects, SubjectOrder)
  {
    forall s, t | s in subjects && t in subjects && SubjectOrder(s) == SubjectOrder(t)
      ensures s == t
    {
      var last := |SubjectOrder(s)| - 1;
      assert SubjectOrder(s)[last] == Num(s.id) && SubjectOrder(t)[last] == Num(t.id);
      assert s.Ref() == t.Ref();
    }
  }

  /** However the repositories list the same rows, the pass takes the same decisions. */
  lemma ListingDoesNotMatter(kind: Kind, v: World, w: World)
    requires DistinctContracts(v.contracts) && DistinctRefs(v.subjects)
    requires multiset(v.contracts) == multiset(w.contracts) && multiset(v.subjects) == multiset(w.subjects)
    requires v.ledger == w.ledger
    ensures PassOf(kind, v) == PassOf(kind, w) && MatchAll(kind, v).ledger == MatchAll(kind, w).ledger
  {
    hide Pass.After, SortBy, Eligible, HasCase;
    ContractOrderIdentifies(v.contracts);
    SortForgetsListing(v.contracts, w.contracts, ContractOrder);
    var f := (s: Subject) => s.Kind() == kind && s.procurement;
    KeepForgetsListing(v.subjects, w.subjects, f);
    KeepDistinctRefs(v.subjects, f);
    SubjectOrderIdentifies(kind, Keep(v.subjects, f));
    SortForgetsListing(Keep(v.subjects, f), Keep(w.subjects, f), SubjectOrder);
    assert Listing(kind, v.subjects) == Listing(kind, w.subjects);
  }

  // ---- The run summary ----

  datatype Summary = Summary(
    eligible: nat, outOfScope: nat, autoConfirmed: nat, humanRequired: nat, unmatched: nat,
    capacityExceeded: nat, skipped: nat, ids: seq<nat>)

  function Count(t: Summary, s: Subject, d: Decision): Summary {
    var u := t.(ids := t.ids + [s.id]);
    match d
    case NoCandidate => u.(unmatched := t.unmatched + 1)
    case CapacityExceeded => u.(capacityExceeded := t.capacityExceeded + 1)
    case NeedsHuman => u.(humanRequired := t.humanRequired + 1)
    case Confirm(_, _) => u.(autoConfirmed := t.autoConfirmed + 1)
  }

  /** The counters after n decisions, starting from t. */
  function Tally(p: Pass, n: nat, t: Summary): Summary
    requires n <= |p.subjects|
  {
    if n == 0 then t else Count(Tally(p, n - 1, t), p.subjects[n - 1], p.DecisionAt(n - 1))
  }

  function SummaryOf(kind: Kind, w: World): Summary {
    var listing, p := Listing(kind, w.subjects), PassOf(kind, w);
    var eligible := EligibleOf(listing, Snapshot(w));
    Tally(p, |p.subjects|, Summary(|eligible|, |listing| - |eligible|, 0, 0, 0, 0, |eligible| - |p.subjects|, []))
  }

  lemma {:induction false} TallyCounts(p: Pass, n: nat, t: Summary)
    requires n <= |p.subjects|
    ensures var u := Tally(p, n, t);
            && u.eligible == t.eligible && u.outOfScope == t.outOfScope && u.skipped == t.skipped
            && u.autoConfirmed + u.humanRequired + u.unmatched + u.capacityExceeded
               == t.autoConfirmed + t.humanRequired + t.unmatched + t.capacityExceeded + n
            && |u.ids| == |t.ids| + n
            && |p.After(n).allocations| == |p.base.allocations| + u.autoConfirmed - t.autoConfirmed
            && |p.After(n).tasks| == |p.base.tasks| + u.capacityExceeded - t.capacityExceeded
            && |p.After(n).events| == |p.base.events| + n - (u.unmatched - t.unmatched)
  {
    hide Pass.DecisionAt;
    if n == 0 {
    } else {
      TallyCounts(p, n - 1, t);
    }
  }

  /** The counters partition the eligible subjects and agree with what was written. */
  lemma SummaryPartitions(kind: Kind, w: World)
    ensures var u := SummaryOf(kind, w); var w' := MatchAll(kind, w);
            && u.eligible == u.skipped + u.autoConfirmed + u.humanRequired + u.unmatched + u.capacityExceeded
            && u.eligible + u.outOfScope == |Listing(kind, w.subjects)|
            && |w'.ledger.cases| == |w.ledger.cases| + u.eligible - u.skipped
            && |w'.ledger.allocations| == |w.ledger.allocations| + u.autoConfirmed
            && |w'.ledger.tasks| == |w.ledger.tasks| + u.capacityExceeded
  {
    hide Pass.After, Pass.DecisionAt, Tally, Listing, Snapshot, HasCase, Eligible;
    var listing, p := Listing(kind, w.subjects), PassOf(kind, w);
    var eligible := EligibleOf(listing, Snapshot(w));
    TallyCounts(p, |p.subjects|,
                Summary(|eligible|, |listing| - |eligible|, 0, 0, 0, 0, |eligible| - |p.subjects|, []));
    PassEvolves(p, |p.subjects|);
  }
}
