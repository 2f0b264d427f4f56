/**
 The matching engine as it runs: one pass over a listing, with a lazily filled capacity table,
 and the human confirmation.  Each method is proved against the rules of MatchingRules.
 */
module MatchingEngine {
  import opened Options
  import opened Keys
  import opened Sequences
  import opened MatchingRules
  import opened MatchingTheorems
  import opened MatchingSystem

  lemma {:induction false} ViableAppend(pool: seq<Contract>, c: Contract, kind: Kind, amount: int, a: seq<Allocation>)
    ensures Viable(pool + [c], kind, amount, a)
         == Viable(pool, kind, amount, a) + (if amount <= Left(c, kind, a) then [c] else [])
  {
    if pool == [] {
    } else {
      assert (pool + [c])[1..] == pool[1..] + [c];
      ViableAppend(pool[1..], c, kind, amount, a);
    }
  }

  lemma SetListing(pool: seq<Contract>)
    requires Distinct(pool)
    ensures multiset(pool) == multiset(set c | c in pool)
  {
    forall c
      ensures multiset(pool)[c] == multiset(set d | d in pool)[c]
    {
      DistinctCounts(pool, c);
    }
  }

  lemma PoolIsDistinct(pool: seq<Contract>)
    requires DistinctContracts(pool)
    ensures Distinct(pool)
  {
  }

  lemma MembersAreDistinct(members: seq<Subject>)
    requires DistinctSubjects(members)
    ensures Distinct(members)
  {
  }

  lemma DistinctIds(members: seq<Subject>, listing: seq<Subject>, i: nat)
    requires DistinctSubjects(members) && Distinct(listing) && i < |listing|
    requires forall s :: s in listing ==> s in members
    ensures forall j :: 0 <= j < i ==> listing[j].id != listing[i].id
  {
    forall j | 0 <= j < i
      ensures listing[j].id != listing[i].id
    {
      assert listing[i] in members && listing[j] in members;
      var x :| 0 <= x < |members| && members[x] == listing[i];
      var y :| 0 <= y < |members| && members[y] == listing[j];
      assert x != y;
    }
  }

  lemma DistinctIdentities(pool: seq<Contract>, listing: seq<Contract>)
    requires Distinct(pool) && multiset(pool) == multiset(listing)
    requires forall i, j :: 0 <= i < j < |pool| ==> ContractIdentity(pool[i]) != ContractIdentity(pool[j])
    ensures forall i, j :: 0 <= i < j < |listing| ==> ContractIdentity(listing[i]) != ContractIdentity(listing[j])
  {
    DistinctPermutes(pool, listing);
    SameMembers(pool, listing);
    forall i, j | 0 <= i < j < |listing|
      ensures ContractIdentity(listing[i]) != ContractIdentity(listing[j])
    {
      assert listing[i] in pool && listing[j] in pool;
      var x :| 0 <= x < |pool| && pool[x] == listing[i];
      var y :| 0 <= y < |pool| && pool[y] == listing[j];
      assert x != y;
    }
  }

  lemma EquivalentForgetsListing(members: seq<Subject>, pool: seq<Contract>, listing: seq<Contract>)
    requires Distinct(pool) && multiset(pool) == multiset(listing)
    ensures Equivalent(members, pool) <==> Equivalent(members, listing)
  {
    hide ContractIdentity, ContractStateOf, Identity, StateOf, Filled;
    SameMembers(pool, listing);
    DistinctPermutes(pool, listing);
    if Equivalent(members, pool) {
      DistinctIdentities(pool, listing);
    }
    if Equivalent(members, listing) {
      DistinctIdentities(listing, pool);
    }
  }

  lemma IdentitiesIdentify(members: seq<Subject>, pool: seq<Contract>)
    requires Equivalent(members, pool)
    ensures KeysIdentify(pool, ContractIdentity)
  {
    forall c, d | c in pool && d in pool && ContractIdentity(c) == ContractIdentity(d)
      ensures c == d
    {
      var i :| 0 <= i < |pool| && pool[i] == c;
      var j :| 0 <= j < |pool| && pool[j] == d;
      assert i == j;
    }
  }

  lemma {:induction false} AbsentCohortEmpty(k: CohortKey, subjects: seq<Subject>)
    requires forall j :: 0 <= j < |subjects| ==> KeyOf(subjects[j]) != k
    ensures Cohort(k, subjects) == []
  {
    assert Cohort(k, subjects) != [] ==> Cohort(k, subjects)[0] in subjects;
  }

  lemma FirstTime(order: seq<CohortKey>, n: nat)
    requires Distinct(order) && n < |order|
    ensures order[n] !in order[..n]
  {
  }

  lemma LeftIsGrossLessConfirmed(c: Contract, kind: Kind, a: seq<Allocation>)
    ensures c.gross - Left(c, kind, a) == Confirmed(a, kind, c.id)
  {
  }

  /** A confirmation lowers one cached figure by the amount and stays exact. */
  lemma StillExact(snapshot: seq<Contract>, kind: Kind, before: seq<Allocation>, a: Allocation, c: Contract,
      remaining: map<nat, int>)
    requires DistinctContracts(snapshot) && c in snapshot && c.id in remaining
    requires a.subject.kind == kind && a.contract == c.id
    requires forall d :: d in snapshot && d.id in remaining ==> remaining[d.id] == Left(d, kind, before)
    ensures var now := remaining[c.id := remaining[c.id] - a.amount];
            forall d :: d in snapshot && d.id in now ==> now[d.id] == Left(d, kind, before + [a])
  {
    forall d | d in snapshot && d.id in remaining
      ensures Left(d, kind, before + [a]) == Left(d, kind, before) - (if d.id == c.id then a.amount else 0)
    {
      ConfirmedAppend(before, a, kind, d.id);
    }
  }

  class Engine {
    var contracts: seq<Contract>
    var subjects: seq<Subject>
    var cases: seq<MatchCase>
    var allocations: seq<Allocation>
    var candidates: seq<Candidate>
    var tasks: seq<CapacityTask>
    var events: seq<Event>

    ghost function Rows(): Ledger
      reads this
    {
      Ledger(cases, allocations, candidates, tasks, events)
    }

    ghost function State(): World
      reads this
    {
      World(contracts, subjects, Rows())
    }

    constructor ()
      ensures State() == EMPTY
    {
      contracts, subjects, cases, allocations, candidates, tasks, events := [], [], [], [], [], [], [];
    }

    // ---- The capacity table ----

    /** Every cached figure is what recomputing from the stored allocations would give. */
    ghost predicate Exact(remaining: map<nat, int>, snapshot: seq<Contract>, kind: Kind)
      reads this`allocations
    {
      forall c :: c in snapshot && c.id in remaining ==> remaining[c.id] == Left(c, kind, allocations)
    }

    method Remaining(c: Contract, kind: Kind, remaining: map<nat, int>, ghost snapshot: seq<Contract>)
      returns (left: int, remaining': map<nat, int>)
      requires c in snapshot && DistinctContracts(snapshot) && Exact(remaining, snapshot, kind)
      ensures left == Left(c, kind, allocations)
      ensures Exact(remaining', snapshot, kind) && remaining'.Keys == remaining.Keys + {c.id}
    {
      remaining' := remaining;
      if c.id !in remaining' {
        remaining' := remaining'[c.id := c.gross - Confirmed(allocations, kind, c.id)];
      }
      left := remaining'[c.id];
    }

    method ViableCandidates(pool: seq<Contract>, kind: Kind, amount: int, remaining: map<nat, int>,
        ghost snapshot: seq<Contract>)
      returns (viable: seq<Contract>, remaining': map<nat, int>)
      requires DistinctContracts(snapshot) && Exact(remaining, snapshot, kind)
      requires forall c :: c in pool ==> c in snapshot
      ensures viable == Viable(pool, kind, amount, allocations)
      ensures Exact(remaining', snapshot, kind) && remaining.Keys <= remaining'.Keys
      ensures forall c :: c in pool ==> c.id in remaining'
    {
      hide Left, DistinctContracts;
      viable, remaining' := [], remaining;
      for i := 0 to |pool|
        invariant viable == Viable(pool[..i], kind, amount, allocations)
        invariant Exact(remaining', snapshot, kind) && remaining.Keys <= remaining'.Keys
        invariant forall c :: c in pool[..i] ==> c.id in remaining'
      {
        assert pool[i] in pool;
        assert pool[..i + 1] == pool[..i] + [pool[i]];
        ViableAppend(pool[..i], pool[i], kind, amount, allocations);
        var left;
        left, remaining' := Remaining(pool[i], kind, remaining', snapshot);
        if amount <= left {
          viable := viable + [pool[i]];
        }
      }
      assert pool[..|pool|] == pool;
    }

    /** Does every contract of the pool have exactly the amount left? */
    method AllExactly(pool: seq<Contract>, kind: Kind, amount: int, remaining: map<nat, int>,
        ghost snapshot: seq<Contract>)
      returns (exact: bool, remaining': map<nat, int>)
      requires DistinctContracts(snapshot) && Exact(remaining, snapshot, kind)
      requires forall c :: c in pool ==> c in snapshot
      ensures exact <==> forall c :: c in pool ==> Left(c, kind, allocations) == amount
      ensures Exact(remaining', snapshot, kind) && remaining.Keys <= remaining'.Keys
    {
      hide Left, DistinctContracts;
      remaining' := remaining;
      for i := 0 to |pool|
        invariant Exact(remaining', snapshot, kind) && remaining.Keys <= remaining'.Keys
        invariant forall c :: c in pool[..i] ==> Left(c, kind, allocations) == amount
      {
        assert pool[i] in pool;
        assert pool[..i + 1] == pool[..i] + [pool[i]];
        var left;
        left, remaining' := Remaining(pool[i], kind, remaining', snapshot);
        if left != amount {
          return false, remaining';
        }
      }
      assert pool[..|pool|] == pool;
      exact := true;
    }

    // ---- The cohort snapshot ----

    /** The pool as a set is enumerated: every member once, in an order nobody controls. */
    static method Enumerate(pool: seq<Contract>) returns (listing: seq<Contract>)
      requires Distinct(pool)
      ensures multiset(listing) == multiset(pool)
    {
      var rest := set c | c in pool;
      listing := [];
      ghost var taken: multiset<Contract> := multiset{};
      while rest != {}
        invariant multiset(listing) + multiset(rest) == multiset(set c | c in pool)
      {
        var c :| c in rest;
        rest := rest - {c};
        listing := listing + [c];
      }
      SetListing(pool);
    }

    /** Pair the members by identity with the contracts by (number, counterparty). */
    static method Pair(members: seq<Subject>, ghost pool: seq<Contract>, listing: seq<Contract>)
      returns (pairing: map<nat, Contract>)
      requires DistinctSubjects(members) && Distinct(members) && multiset(listing) == multiset(pool)
      requires |members| == |pool| && Equivalent(members, pool)
      ensures forall s :: s in members ==> s.id in pairing && pairing[s.id] == Partner(s, members, pool)
      ensures forall id :: id in pairing ==> exists s :: s in members && s.id == id
    {
      hide SortBy, Identity, Filled;
      var orderedMembers := SortBy(members, IdentityKey);
      var orderedContracts := SortBy(listing, ContractIdentity);
      IdentitiesIdentify(members, pool);
      SortForgetsListing(pool, listing, ContractIdentity);
      SameMembers(members, orderedMembers);
      DistinctPermutes(members, orderedMembers);
      SameLength(listing, pool);
      pairing := map[];
      for i := 0 to |orderedMembers|
        invariant forall j ::
            0 <= j < i ==> orderedMembers[j].id in pairing && pairing[orderedMembers[j].id] == orderedContracts[j]
        invariant forall id :: id in pairing ==> exists s :: s in members && s.id == id
      {
        assert orderedMembers[i] in members;
        DistinctIds(members, orderedMembers, i);
        pairing := pairing[orderedMembers[i].id := orderedContracts[i]];
      }
      forall s | s in members
        ensures s.id in pairing && pairing[s.id] == Partner(s, members, pool)
      {
        assert s in orderedMembers;
        var i := Position(s, orderedMembers);
        assert orderedMembers[i] == s;
      }
    }

    /** One cohort's part in the snapshot: whether its chronology is undefined and, if it is,
        the canonical pairing the business rule allows instead. */
    method PlanCohort(members: seq<Subject>, pool: seq<Contract>, kind: Kind, remaining: map<nat, int>,
        ghost snapshot: seq<Contract>)
      returns (undefined: bool, pairing: map<nat, Contract>, remaining': map<nat, int>)
      requires DistinctContracts(snapshot) && Exact(remaining, snapshot, kind)
      requires (forall c :: c in pool ==> c in snapshot) && DistinctContracts(pool)
      requires members != [] && DistinctSubjects(members) && forall s :: s in members ==> s.amount == members[0].amount
      ensures Exact(remaining', snapshot, kind) && remaining.Keys <= remaining'.Keys
      ensures undefined <==> Undefined(members, pool, kind, members[0].amount, allocations)
      ensures undefined && Interchangeable(members, pool, kind, members[0].amount, allocations)
              ==> forall s :: s in members ==> s.id in pairing && pairing[s.id] == Partner(s, members, pool)
      ensures undefined ==> forall c :: c in pool ==> c.id in remaining'
      ensures pairing != map[] ==> undefined && Interchangeable(members, pool, kind, members[0].amount, allocations)
      ensures forall id :: id in pairing ==> exists s :: s in members && s.id == id
    {
      hide Left, DistinctContracts, DistinctSubjects, Exact, Viable, Identity, SortBy;
      var amount := members[0].amount;
      undefined, pairing, remaining' := false, map[], remaining;
      if |members| < 2 || pool == [] {
        return;
      }
      var viable;
      viable, remaining' := ViableCandidates(pool, kind, amount, remaining, snapshot);
      if viable == [] || (AllSubjectsDated(members) && AllDated(viable)) {
        return;
      }
      undefined := true;
      if |pool| != |members| || |pool| < 2 {
        return;
      }
      var exact;
      exact, remaining' := AllExactly(pool, kind, amount, remaining', snapshot);
      if !exact {
        return;
      }
      PoolIsDistinct(pool);
      var listing := Enumerate(pool);
      EquivalentForgetsListing(members, pool, listing);
      if !Equivalent(members, listing) {
        return;
      }
      MembersAreDistinct(members);
      pairing := Pair(members, pool, listing);
    }

    static method GroupCohorts(unresolved: seq<Subject>)
      returns (order: seq<CohortKey>, cohorts: map<CohortKey, seq<Subject>>)
      ensures Distinct(order)
      ensures forall k :: k in order <==> k in cohorts
      ensures forall k :: k in cohorts ==> cohorts[k] == Cohort(k, unresolved) && cohorts[k] != []
      ensures forall s :: s in unresolved ==> KeyOf(s) in cohorts
    {
      hide Cohort, KeyOf;
      order, cohorts := [], map[];
      for i := 0 to |unresolved|
        invariant Distinct(order)
        invariant forall k :: k in order <==> k in cohorts
        invariant forall k :: k in cohorts ==> cohorts[k] == Cohort(k, unresolved[..i]) && cohorts[k] != []
        invariant forall j :: 0 <= j < i ==> KeyOf(unresolved[j]) in cohorts
      {
        var s := unresolved[i];
        var key := KeyOf(s);
        forall k
          ensures Cohort(k, unresolved[..i + 1]) == Cohort(k, unresolved[..i]) + (if key == k then [s] else [])
        {
          CohortStep(k, unresolved, i);
        }
        if key !in cohorts {
          AbsentCohortEmpty(key, unresolved[..i]);
          order := order + [key];
          cohorts := cohorts[key := [s]];
        } else {
          cohorts := cohorts[key := cohorts[key] + [s]];
        }
      }
      assert unresolved[..|unresolved|] == unresolved;
    }

    /** What the cohort snapshot leaves behind: subjects blocked or paired exactly as planned. */
    static ghost predicate Planned(p: Pass, i: nat, blocked: set<nat>, canonical: map<nat, Contract>)
      requires i < |p.subjects|
    {
      var id := p.subjects[i].id;
      && (id in blocked <==> !p.PlanAt(i).Open?)
      && (id in canonical <==> p.PlanAt(i).Canonical?)
      && (id in canonical ==> canonical[id] == p.PlanAt(i).contract)
    }

    static ghost predicate Unplanned(p: Pass, i: nat, blocked: set<nat>, canonical: map<nat, Contract>)
      requires i < |p.subjects|
    {
      p.subjects[i].id !in blocked && p.subjects[i].id !in canonical
    }

    static ghost predicate SamePlan(id: nat, blocked: set<nat>, canonical: map<nat, Contract>, blocked': set<nat>,
        canonical': map<nat, Contract>) {
      && (id in blocked' <==> id in blocked)
      && (id in canonical' <==> id in canonical)
      && (id in canonical ==> canonical'[id] == canonical[id])
    }

    /** Paired subjects only get contracts whose capacity has been looked up. */
    static ghost predicate Seeded(p: Pass, i: nat, remaining: map<nat, int>)
      requires i < |p.subjects|
    {
      p.PlanAt(i).Canonical? ==> p.PlanAt(i).contract.id in remaining
    }

    /** Plan cohort k, leaving the plans of every other cohort as they were. */
    method SnapshotCohort(
        ghost p: Pass, k: CohortKey, members: seq<Subject>, candidates: seq<Contract>, kind: Kind,
        blocked: set<nat>, canonical: map<nat, Contract>, remaining: map<nat, int>, ghost snapshot: seq<Contract>)
      returns (blocked': set<nat>, canonical': map<nat, Contract>, remaining': map<nat, int>)
      requires p.contracts == snapshot && p.kind == kind && p.base == Rows() && p.WellFormed()
      requires members == Cohort(k, p.subjects) && members != [] && candidates == Pool(k, snapshot)
      requires Exact(remaining, snapshot, kind)
      requires forall i :: InCohort(p, k, i) ==> Unplanned(p, i, blocked, canonical)
      ensures Exact(remaining', snapshot, kind) && remaining.Keys <= remaining'.Keys
      ensures forall i :: InCohort(p, k, i) ==> Planned(p, i, blocked', canonical') && Seeded(p, i, remaining')
      ensures forall i :: 0 <= i < |p.subjects| && !InCohort(p, k, i) ==>
          SamePlan(p.subjects[i].id, blocked, canonical, blocked', canonical')
    {
      hide Cohort, Pool, Pass.PlanAt, Exact, Left, DistinctContracts, DistinctSubjects, Planned, Seeded, Unplanned,
        Undefined, Interchangeable;
      DistinctCohort(p, k);
      DistinctPool(k, snapshot);
      assert members[0] in members;
      var undefined, pairing;
      undefined, pairing, remaining' := PlanCohort(members, candidates, kind, remaining, snapshot);
      assert Reported(p, k, undefined, pairing, remaining');
      blocked', canonical' := blocked, canonical;
      if undefined {
        blocked' := blocked + set s | s in members :: s.id;
        canonical' := canonical + pairing;
      }
      SnapshotsCohort(p, k, undefined, pairing, remaining', blocked, canonical, blocked', canonical');
    }

    static lemma SnapshotsCohort(
        p: Pass, k: CohortKey, undefined: bool, pairing: map<nat, Contract>, remaining: map<nat, int>,
        blocked: set<nat>, canonical: map<nat, Contract>, blocked': set<nat>, canonical': map<nat, Contract>)
      requires p.WellFormed() && Reported(p, k, undefined, pairing, remaining)
      requires forall i :: InCohort(p, k, i) ==> Unplanned(p, i, blocked, canonical)
      requires blocked' == if undefined then blocked + (set s | s in Cohort(k, p.subjects) :: s.id) else blocked
      requires canonical' == if undefined then canonical + pairing else canonical
      ensures forall i :: InCohort(p, k, i) ==> Planned(p, i, blocked', canonical') && Seeded(p, i, remaining)
      ensures forall i :: 0 <= i < |p.subjects| && !InCohort(p, k, i) ==>
          SamePlan(p.subjects[i].id, blocked, canonical, blocked', canonical')
    {
      hide Cohort, Pool, Pass.PlanAt, Pass.WellFormed, Reported, Planned, Seeded, Unplanned;
      forall i | 0 <= i < |p.subjects|
        ensures InCohort(p, k, i) ==> Planned(p, i, blocked', canonical') && Seeded(p, i, remaining)
        ensures !InCohort(p, k, i) ==> SamePlan(p.subjects[i].id, blocked, canonical, blocked', canonical')
      {
        if InCohort(p, k, i) {
          PlansOwnCohort(p, k, i, undefined, pairing, remaining, blocked, canonical);
        } else {
          LeavesOtherCohorts(p, k, i, undefined, pairing, remaining);
        }
      }
    }

    method SnapshotCohorts(ghost p: Pass, unresolved: seq<Subject>, snapshot: seq<Contract>, kind: Kind,
        candidatesBySubject: map<nat, seq<Contract>>)
      returns (blocked: set<nat>, canonical: map<nat, Contract>, remaining: map<nat, int>)
      requires p == Pass(kind, snapshot, unresolved, Rows()) && p.WellFormed()
      requires forall s :: s in unresolved ==>
          s.id in candidatesBySubject && candidatesBySubject[s.id] == Pool(KeyOf(s), snapshot)
      ensures forall i :: 0 <= i < |unresolved| ==> Planned(p, i, blocked, canonical) && Seeded(p, i, remaining)
      ensures Exact(remaining, snapshot, kind)
    {
      hide Cohort, Pool, Pass.PlanAt, Exact, Left, Distinct, DistinctContracts, DistinctSubjects;
      blocked, canonical, remaining := {}, map[], map[];
      var order, cohorts := GroupCohorts(unresolved);
      assert Exact(remaining, snapshot, kind) by { EmptyIsExact(snapshot, kind); }
      for n := 0 to |order|
        invariant Exact(remaining, snapshot, kind)
        invariant forall i ::
            0 <= i < |unresolved| && KeyOf(unresolved[i]) in order[..n] ==>
                Planned(p, i, blocked, canonical) && Seeded(p, i, remaining)
        invariant forall i ::
            0 <= i < |unresolved| && KeyOf(unresolved[i]) !in order[..n] ==> Unplanned(p, i, blocked, canonical)
      {
        var k := order[n];
        var members := cohorts[k];
        assert members[0] in members;
        var candidates := candidatesBySubject[members[0].id];
        FirstTime(order, n);
        blocked, canonical, remaining :=
          SnapshotCohort(p, k, members, candidates, kind, blocked, canonical, remaining, snapshot);
        assert order[..n + 1] == order[..n] + [k];
      }
      assert order[..|order|] == order;
    }

    /** What PlanCohort reports about cohort k. */
    static ghost predicate Reported(p: Pass, k: CohortKey, undefined: bool, pairing: map<nat, Contract>,
        remaining: map<nat, int>) {
      var members, pool := Cohort(k, p.subjects), Pool(k, p.contracts);
      && (undefined <==> UndefinedCohort(p, k))
      && (undefined && InterchangeableCohort(p, k) ==>
            forall s :: s in members ==> s.id in pairing && pairing[s.id] == Partner(s, members, pool))
      && (undefined ==> forall c :: c in pool ==> c.id in remaining)
      && (pairing != map[] ==> undefined && InterchangeableCohort(p, k))
      && (forall id :: id in pairing ==> exists s :: s in members && s.id == id)
    }

    static lemma PlansOwnCohort(
        p: Pass, k: CohortKey, i: nat, undefined: bool, pairing: map<nat, Contract>, remaining: map<nat, int>,
        blocked: set<nat>, canonical: map<nat, Contract>)
      requires InCohort(p, k, i) && Reported(p, k, undefined, pairing, remaining) && Unplanned(p, i, blocked, canonical)
      ensures undefined ==> Planned(p, i, blocked + (set s | s in Cohort(k, p.subjects) :: s.id), canonical + pairing)
      ensures !undefined ==> Planned(p, i, blocked, canonical)
      ensures Seeded(p, i, remaining)
    {
      hide Cohort, Pool, Undefined, Interchangeable, Partner, Pass.PlanAt, Pass.DecisionAt;
      PlannedAsCohort(p, k, i);
      assert p.subjects[i] in Cohort(k, p.subjects);
      if undefined && !InterchangeableCohort(p, k) {
        assert pairing == map[];
      }
    }

    static lemma LeavesOtherCohorts(
        p: Pass, k: CohortKey, i: nat, undefined: bool, pairing: map<nat, Contract>, remaining: map<nat, int>)
      requires p.WellFormed() && i < |p.subjects| && KeyOf(p.subjects[i]) != k
        && Reported(p, k, undefined, pairing, remaining)
      ensures p.subjects[i].id !in pairing && p.subjects[i].id !in set s | s in Cohort(k, p.subjects) :: s.id
    {
      hide Pool, Undefined, Interchangeable, Partner;
      forall s | s in Cohort(k, p.subjects)
        ensures s.id != p.subjects[i].id
      {
        var j :| 0 <= j < |p.subjects| && p.subjects[j] == s;
        assert j != i;
      }
    }

    lemma EmptyIsExact(snapshot: seq<Contract>, kind: Kind)
      ensures Exact(map[], snapshot, kind)
    {
    }

    // ---- Deciding and recording ----

    method AddHcrCandidates(pool: seq<Contract>, caseId: nat)
      modifies this`candidates
      ensures candidates == old(candidates) + CandidateRows(caseId, pool)
    {
      for i := 0 to |pool|
        invariant candidates == old(candidates) + CandidateRows(caseId, pool[..i])
      {
        candidates := candidates + [Candidate(caseId, pool[i].id)];
        assert CandidateRows(caseId, pool[..i + 1])
          == CandidateRows(caseId, pool[..i]) + [Candidate(caseId, pool[i].id)];
      }
      assert pool[..|pool|] == pool;
    }

    /** The decision for one unresolved subject, from its plan and the capacity table. */
    method Choose(
        s: Subject, pool: seq<Contract>, kind: Kind, ghost plan: Plan, blocked: set<nat>, canonical: map<nat, Contract>,
        remaining: map<nat, int>, ghost snapshot: seq<Contract>)
      returns (d: Decision, remaining': map<nat, int>)
      requires DistinctContracts(snapshot) && Exact(remaining, snapshot, kind)
      requires forall c :: c in pool ==> c in snapshot
      requires s.id in blocked <==> !plan.Open?
      requires s.id in canonical <==> plan.Canonical?
      requires plan.Canonical? ==>
          canonical[s.id] == plan.contract && plan.contract in pool && plan.contract.id in remaining
      ensures d == Decide(s, plan, pool, kind, allocations)
      ensures Exact(remaining', snapshot, kind) && remaining.Keys <= remaining'.Keys
      ensures d.Confirm? ==> d.contract in pool && d.contract.id in remaining'
      ensures d.CapacityExceeded? ==> pool != []
    {
      hide Viable, Left, Confirmed, DistinctContracts, Earliest, Exact;
      remaining' := remaining;
      if |pool| == 0 {
        return NoCandidate, remaining';
      }
      if s.id in canonical {
        return Confirm(canonical[s.id], EquivalentCanonical), remaining';
      }
      if s.id in blocked {
        return NeedsHuman, remaining';
      }
      var viable;
      viable, remaining' := ViableCandidates(pool, kind, s.amount, remaining', snapshot);
      var basis := if |pool| > 1 then Chronological else Unique;
      if |viable| == 0 {
        return CapacityExceeded, remaining';
      }
      if |viable| == 1 {
        assert viable[0] in viable;
        return Confirm(viable[0], basis), remaining';
      }
      if (exists c :: c in viable && c.date.None?) || s.date.None? {
        return NeedsHuman, remaining';
      }
      assert Earliest(viable) in viable;
      d := Confirm(Earliest(viable), basis);
    }

    /** Record a decision and, if it confirms a contract, charge the capacity table. */
    method Record(
        s: Subject, pool: seq<Contract>, kind: Kind, d: Decision, remaining: map<nat, int>, tally: Summary,
        ghost snapshot: seq<Contract>)
      returns (remaining': map<nat, int>, tally': Summary)
      requires DistinctContracts(snapshot) && Exact(remaining, snapshot, kind) && s.Kind() == kind
      requires forall c :: c in pool ==> c in snapshot
      requires d.CapacityExceeded? ==> pool != []
      requires d.Confirm? ==> d.contract in pool && d.contract.id in remaining
      modifies this`cases, this`allocations, this`candidates, this`tasks, this`events
      ensures Rows() == Write(old(Rows()), s, pool, d) && tally' == Count(tally, s, d)
      ensures Exact(remaining', snapshot, kind) && remaining.Keys <= remaining'.Keys
    {
      hide Left, Confirmed, DistinctContracts, CandidateRows, Ids;
      var caseId := |cases|;
      remaining' := remaining;
      tally' := tally.(ids := tally.ids + [s.id]);
      match d
      case NoCandidate =>
        cases := cases + [MatchCase(s.Ref(), Unmatched)];
        tally' := tally'.(unmatched := tally.unmatched + 1);
      case CapacityExceeded =>
        cases := cases + [MatchCase(s.Ref(), HumanConfirmationRequired)];
        AddHcrCandidates(pool, caseId);
        var first := pool[0];
        var left;
        left, remaining' := Remaining(first, kind, remaining', snapshot);
        LeftIsGrossLessConfirmed(first, kind, allocations);
        tasks := tasks + [CapacityTask(s.Ref(), first.id, first.gross - left, s.amount, first.gross)];
        events := events + [CapacityExceededEvent(s.Ref(), first.id)];
        tally' := tally'.(capacityExceeded := tally.capacityExceeded + 1);
      case NeedsHuman =>
        cases := cases + [MatchCase(s.Ref(), HumanConfirmationRequired)];
        AddHcrCandidates(pool, caseId);
        events := events + [HumanConfirmationNeeded(s.Ref(), Ids(pool))];
        tally' := tally'.(humanRequired := tally.humanRequired + 1);
      case Confirm(c, basis) =>
        var a := Allocation(s.Ref(), c.id, caseId, s.amount, basis, false);
        KeepsExact(snapshot, kind, a, c, remaining');
        remaining' := remaining'[c.id := remaining'[c.id] - s.amount];
        cases := cases + [MatchCase(s.Ref(), AutoConfirmed)];
        candidates := candidates + [Candidate(caseId, c.id)];
        allocations := allocations + [a];
        events := events + [MatchAutoConfirmed(s.Ref(), c.id, s.amount)];
        tally' := tally'.(autoConfirmed := tally.autoConfirmed + 1);
    }

    // ---- The whole pass ----

    /** Pass 1: the eligible subjects and the candidates of each. */
    static method SelectEligible(kind: Kind, listing: seq<Subject>, snapshot: seq<Contract>,
        ghost subjects: seq<Subject>)
      returns (eligible: seq<Subject>, candidatesBySubject: map<nat, seq<Contract>>)
      requires DistinctRefs(subjects) && listing == Listing(kind, subjects)
      ensures eligible == EligibleOf(listing, snapshot)
      ensures forall s :: s in eligible ==>
          s.id in candidatesBySubject && candidatesBySubject[s.id] == Pool(KeyOf(s), snapshot)
    {
      hide Listing, Pool, Eligible, DistinctRefs;
      eligible, candidatesBySubject := [], map[];
      for i := 0 to |listing|
        invariant eligible == EligibleOf(listing[..i], snapshot)
        invariant forall s ::
            s in eligible ==>
                s in listing && s.id in candidatesBySubject && candidatesBySubject[s.id] == Pool(KeyOf(s), snapshot)
      {
        var s := listing[i];
        assert listing[..i + 1][..i] == listing[..i];
        if Eligible(s, snapshot) {
          eligible := eligible + [s];
          SameListingId(kind, subjects, s);
          candidatesBySubject := candidatesBySubject[s.id := Pool(KeyOf(s), snapshot)];
        }
      }
      assert listing[..|listing|] == listing;
    }

    /** The eligible subjects that have no case of any status yet. */
    method SelectUnresolved(eligible: seq<Subject>) returns (unresolved: seq<Subject>, skipped: nat)
      ensures unresolved == UnresolvedOf(eligible, cases) && skipped == |eligible| - |unresolved|
    {
      hide HasCase;
      unresolved, skipped := [], 0;
      for i := 0 to |eligible|
        invariant unresolved == UnresolvedOf(eligible[..i], cases) && skipped == i - |unresolved|
      {
        var s := eligible[i];
        assert eligible[..i + 1][..i] == eligible[..i];
        if HasCase(cases, s.Ref()) {
          skipped := skipped + 1;
        } else {
          unresolved := unresolved + [s];
        }
      }
      assert eligible[..|eligible|] == eligible;
    }

    /** Pass 2: decide the unresolved subjects one after the other. */
    method DecideUnresolved(ghost p: Pass, unresolved: seq<Subject>, snapshot: seq<Contract>, kind: Kind,
        candidatesBySubject: map<nat, seq<Contract>>, start: Summary)
      returns (summary: Summary)
      requires p == Pass(kind, snapshot, unresolved, Rows()) && p.WellFormed()
      requires forall s :: s in unresolved ==>
          s.id in candidatesBySubject && candidatesBySubject[s.id] == Pool(KeyOf(s), snapshot)
      modifies this`cases, this`allocations, this`candidates, this`tasks, this`events
      ensures Rows() == p.After(|unresolved|) && summary == Tally(p, |unresolved|, start)
    {
      hide Pass.PlanAt, Pass.After, Pass.DecisionAt, Decide, Write, Pool, Exact, Planned, Seeded, Tally,
        DistinctContracts, DistinctSubjects;
      var blocked, canonical, remaining := SnapshotCohorts(p, unresolved, snapshot, kind, candidatesBySubject);
      summary := start;
      PassStarts(p, start);
      for n := 0 to |unresolved|
        invariant Rows() == p.After(n) && Exact(remaining, snapshot, kind)
        invariant forall i :: 0 <= i < |unresolved| ==> Planned(p, i, blocked, canonical) && Seeded(p, i, remaining)
        invariant summary == Tally(p, n, start)
      {
        var s := unresolved[n];
        assert s in unresolved;
        assert s.Kind() == kind;
        ghost var before := remaining;
        PlanFits(p, n, blocked, canonical, remaining);
        var d;
        d, remaining := Choose(s, candidatesBySubject[s.id], kind, p.PlanAt(n), blocked, canonical, remaining,
                               snapshot);
        remaining, summary := Record(s, candidatesBySubject[s.id], kind, d, remaining, summary, snapshot);
        PassContinues(p, n, start);
        StaysSeeded(p, before, remaining);
      }
    }

    method RunMatchPass(kind: Kind, listing: seq<Subject>, snapshot: seq<Contract>) returns (summary: Summary)
      requires DistinctContracts(contracts) && DistinctRefs(subjects)
      requires listing == Listing(kind, subjects) && snapshot == Snapshot(State())
      modifies this`cases, this`allocations, this`candidates, this`tasks, this`events
      ensures State() == MatchAll(kind, old(State())) && summary == SummaryOf(kind, old(State()))
    {
      hide *;
      ghost var w := State();
      StateParts();
      ghost var p := PassOf(kind, w);
      PassOfWellFormed(kind, w);
      var eligible, candidatesBySubject := SelectEligible(kind, listing, snapshot, subjects);
      var unresolved, skipped := SelectUnresolved(eligible);
      UnresolvedAreEligible(eligible, cases);
      EligibleAreListed(listing, snapshot);
      PassParts(kind, w);
      summary := Summary(|eligible|, |listing| - |eligible|, 0, 0, 0, 0, skipped, []);
      summary := DecideUnresolved(p, unresolved, snapshot, kind, candidatesBySubject, summary);
      StateParts();
    }

    lemma StateParts()
      ensures State() == World(contracts, subjects, Rows())
      ensures Rows() == Ledger(cases, allocations, candidates, tasks, events)
    {
    }

    /** The pass, its outcome and its summary, put together from the parts the method computes. */
    static lemma PassParts(kind: Kind, w: World)
      ensures var contracts, listing := Snapshot(w), Listing(kind, w.subjects);
              var eligible := EligibleOf(listing, contracts);
              var unresolved := UnresolvedOf(eligible, w.ledger.cases);
              var p := PassOf(kind, w);
              && |unresolved| <= |eligible| <= |listing|
              && p == Pass(kind, contracts, unresolved, w.ledger)
              && MatchAll(kind, w) == World(w.contracts, w.subjects, p.After(|unresolved|))
              && SummaryOf(kind, w)
                 == Tally(p, |unresolved|,
                          Summary(|eligible|, |listing| - |eligible|, 0, 0, 0, 0, |eligible| - |unresolved|, []))
    {
      hide Pass.After, Tally, Listing, Snapshot, Eligible, HasCase;
    }

    static lemma UnresolvedAreEligible(eligible: seq<Subject>, cases: seq<MatchCase>)
      ensures |UnresolvedOf(eligible, cases)| <= |eligible|
      ensures forall s :: s in UnresolvedOf(eligible, cases) ==> s in eligible
    {
    }

    static lemma EligibleAreListed(listing: seq<Subject>, snapshot: seq<Contract>)
      ensures |EligibleOf(listing, snapshot)| <= |listing|
    {
    }

    lemma KeepsExact(snapshot: seq<Contract>, kind: Kind, a: Allocation, c: Contract, remaining: map<nat, int>)
      requires DistinctContracts(snapshot) && c in snapshot && c.id in remaining && Exact(remaining, snapshot, kind)
      requires a.subject.kind == kind && a.contract == c.id
      ensures var now := remaining[c.id := remaining[c.id] - a.amount];
              forall d :: d in snapshot && d.id in now ==> now[d.id] == Left(d, kind, allocations + [a])
    {
      StillExact(snapshot, kind, allocations, a, c, remaining);
    }

    static lemma PassStarts(p: Pass, start: Summary)
      ensures p.After(0) == p.base && Tally(p, 0, start) == start
    {
    }

    static lemma PassContinues(p: Pass, n: nat, start: Summary)
      requires n < |p.subjects|
      ensures var d := Decide(p.subjects[n], p.PlanAt(n), p.PoolAt(n), p.kind, p.After(n).allocations);
              && p.After(n + 1) == Write(p.After(n), p.subjects[n], p.PoolAt(n), d)
              && Tally(p, n + 1, start) == Count(Tally(p, n, start), p.subjects[n], d)
    {
    }

    static lemma PlanFits(p: Pass, n: nat, blocked: set<nat>, canonical: map<nat, Contract>, remaining: map<nat, int>)
      requires n < |p.subjects| && Planned(p, n, blocked, canonical) && Seeded(p, n, remaining)
      ensures var s, plan := p.subjects[n], p.PlanAt(n);
              && (s.id in blocked <==> !plan.Open?)
              && (s.id in canonical <==> plan.Canonical?)
              && (plan.Canonical? ==>
                    canonical[s.id] == plan.contract && plan.contract in p.PoolAt(n) && plan.contract.id in remaining)
              && p.PoolAt(n) == Pool(KeyOf(s), p.contracts)
              && forall c :: c in p.PoolAt(n) ==> c in p.contracts
    {
      PlannedAsCohort(p, KeyOf(p.subjects[n]), n);
    }

    static lemma StaysSeeded(p: Pass, before: map<nat, int>, now: map<nat, int>)
      requires before.Keys <= now.Keys
      ensures forall i :: 0 <= i < |p.subjects| && Seeded(p, i, before) ==> Seeded(p, i, now)
    {
    }

    static lemma SameListingId(kind: Kind, subjects: seq<Subject>, s: Subject)
      requires DistinctRefs(subjects) && s in Listing(kind, subjects)
      ensures forall t :: t in Listing(kind, subjects) && t.id == s.id ==> t == s
    {
      ListingMembers(kind, subjects);
    }

    method MatchInvoices() returns (summary: Summary)
      requires DistinctContracts(contracts) && DistinctRefs(subjects)
      modifies this`cases, this`allocations, this`candidates, this`tasks, this`events
      ensures State() == MatchAll(InvoiceKind, old(State())) && summary == SummaryOf(InvoiceKind, old(State()))
    {
      var snapshot := SortBy(contracts, ContractOrder);
      var listing := Listing(InvoiceKind, subjects);
      summary := RunMatchPass(InvoiceKind, listing, snapshot);
    }

    method MatchPayments() returns (summary: Summary)
      requires DistinctContracts(contracts) && DistinctRefs(subjects)
      modifies this`cases, this`allocations, this`candidates, this`tasks, this`events
      ensures State() == MatchAll(PaymentKind, old(State())) && summary == SummaryOf(PaymentKind, old(State()))
    {
      var snapshot := SortBy(contracts, ContractOrder);
      var listing := Listing(PaymentKind, subjects);
      summary := RunMatchPass(PaymentKind, listing, snapshot);
    }

    // ---- Human confirmation ----

    method ConfirmByHuman(caseId: nat, contractId: nat) returns (error: Option<ConfirmError>)
      modifies this`cases, this`allocations, this`events
      ensures match ConfirmMatch(old(State()), caseId, contractId)
              case Done(w) => error.None? && State() == w
              case Refused(e) => error == Some(e) && State() == old(State())
    {
      hide Confirmed;
      if caseId >= |cases| {
        return Some(CaseNotFound);
      }
      if cases[caseId].status != HumanConfirmationRequired {
        return Some(NotPending);
      }
      var ref := cases[caseId].subject;
      var c := FindContract(contracts, contractId);
      if c.None? {
        return Some(ContractNotFound);
      }
      var s := FindSubject(subjects, ref);
      if s.None? {
        return Some(SubjectNotFound);
      }
      if !s.value.procurement {
        return Some(WrongDirection);
      }
      var already := Confirmed(allocations, ref.kind, contractId);
      if already + s.value.amount > c.value.gross {
        return Some(OverCapacity);
      }
      allocations := allocations + [Allocation(ref, contractId, caseId, s.value.amount, Unique, true)];
      cases := cases[caseId := MatchCase(ref, Resolved)];
      events := events + [MatchHumanConfirmed(caseId, contractId)];
      error := None;
    }
  }
}
