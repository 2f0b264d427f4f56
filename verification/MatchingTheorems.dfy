/**
 One step of a matching pass and its capacity: which cohort can take a contract, what the canonical
 pairing reserves, and that no contract is over-allocated.
 */
module MatchingTheorems {
  import opened Keys
  import opened Sequences
  import opened MatchingRules

  // ---- One step ----

  lemma ConfirmedAppend(a: seq<Allocation>, x: Allocation, kind: Kind, contract: nat)
    ensures Confirmed(a + [x], kind, contract)
         == Confirmed(a, kind, contract) + (if x.subject.kind == kind && x.contract == contract then x.amount else 0)
  {
    assert (a + [x])[..|a|] == a;
  }

  /** Subject i is confirmed against contract c. */
  ghost predicate Takes(p: Pass, i: nat, c: Contract)
    requires i < |p.subjects|
  {
    p.DecisionAt(i).Confirm? && p.DecisionAt(i).contract.id == c.id
  }

  lemma DecisionInPool(p: Pass, i: nat)
    requires i < |p.subjects|
    ensures p.DecisionAt(i).Confirm? ==> p.DecisionAt(i).contract in p.PoolAt(i)
  {
    var s, pool, plan := p.subjects[i], p.PoolAt(i), p.PlanAt(i);
    assert plan.Canonical? ==> plan.contract in pool;
    var viable := Viable(pool, p.kind, s.amount, p.After(i).allocations);
    assert p.DecisionAt(i) == Decide(s, plan, pool, p.kind, p.After(i).allocations);
    if plan.Open? && viable != [] {
      assert viable[0] in viable && Earliest(viable) in viable;
    }
  }

  lemma SameIdSameContract(p: Pass, c: Contract, d: Contract)
    requires p.WellFormed() && c in p.contracts && d in p.contracts && c.id == d.id
    ensures c == d
  {
  }

  /** A contract's own counterparty and gross amount fix the only cohort that can take it. */
  lemma TakenByOwnCohort(p: Pass, i: nat, c: Contract)
    requires p.WellFormed() && i < |p.subjects| && c in p.contracts && Takes(p, i, c)
    ensures p.DecisionAt(i).contract == c && ContractKey(c) == KeyOf(p.subjects[i]) && c in p.PoolAt(i)
  {
    DecisionInPool(p, i);
    SameIdSameContract(p, c, p.DecisionAt(i).contract);
  }

  /** A decision lowers the capacity of the contract it confirms by the subject's amount, and no other. */
  lemma StepLeft(p: Pass, i: nat, c: Contract)
    requires p.WellFormed() && i < |p.subjects|
    ensures Left(c, p.kind, p.After(i + 1).allocations)
         == Left(c, p.kind, p.After(i).allocations) - (if Takes(p, i, c) then p.subjects[i].amount else 0)
  {
    var w, s, d := p.After(i), p.subjects[i], p.DecisionAt(i);
    assert p.After(i + 1) == Write(w, s, p.PoolAt(i), d);
    assert s.Kind() == p.kind;
    if d.Confirm? {
      ConfirmedAppend(w.allocations, Allocation(s.Ref(), d.contract.id, |w.cases|, s.amount, d.basis, false), p.kind,
                      c.id);
    }
  }

  lemma {:induction false} LeftUntouched(p: Pass, m: nat, n: nat, c: Contract)
    requires p.WellFormed() && m <= n <= |p.subjects|
    requires forall j :: m <= j < n ==> !Takes(p, j, c)
    ensures Left(c, p.kind, p.After(n).allocations) == Left(c, p.kind, p.After(m).allocations)
    decreases n - m
  {
    hide *;
    if m == n {
    } else {
      assert !Takes(p, m, c);
      StepLeft(p, m, c);
      LeftUntouched(p, m + 1, n, c);
    }
  }

  // ---- Cohorts ----

  lemma CohortStep(k: CohortKey, subjects: seq<Subject>, i: nat)
    requires i < |subjects|
    ensures Cohort(k, subjects[..i + 1])
      == Cohort(k, subjects[..i]) + (if KeyOf(subjects[i]) == k then [subjects[i]] else [])
  {
    assert subjects[..i + 1][..i] == subjects[..i];
  }

  /** The pass on one cohort alone. */
  function Alone(p: Pass, k: CohortKey): Pass { p.(subjects := Cohort(k, p.subjects)) }

  lemma DistinctCohort(p: Pass, k: CohortKey)
    requires p.WellFormed()
    ensures Alone(p, k).WellFormed()
  {
    DistinctIdsFilter(k, p.subjects);
  }

  lemma {:induction false} DistinctIdsFilter(k: CohortKey, subjects: seq<Subject>)
    requires DistinctSubjects(subjects)
    ensures DistinctSubjects(Cohort(k, subjects))
  {
    if subjects == [] {
    } else {
      var front, last := subjects[..|subjects| - 1], subjects[|subjects| - 1];
      DistinctIdsFilter(k, front);
      forall s | s in Cohort(k, front)
        ensures s.id != last.id
      {
        var i :| 0 <= i < |front| && front[i] == s;
      }
    }
  }

  // ---- The canonical pairing is a bijection ----

  lemma {:induction false} DistinctPool(k: CohortKey, contracts: seq<Contract>)
    requires DistinctContracts(contracts)
    ensures DistinctContracts(Pool(k, contracts))
  {
    if contracts == [] || k.party.None? {
    } else {
      DistinctPool(k, contracts[1..]);
      forall c | c in Pool(k, contracts[1..])
        ensures c.id != contracts[0].id
      {
        var i :| 0 <= i < |contracts[1..]| && contracts[1..][i] == c;
        assert contracts[i + 1] == c;
      }
    }
  }

  lemma PartnersBijective(members: seq<Subject>, pool: seq<Contract>)
    requires Distinct(members) && Distinct(pool) && |members| == |pool|
    ensures forall s, t :: s in members && t in members && s != t ==>
        Partner(s, members, pool) != Partner(t, members, pool)
    ensures forall c :: c in pool ==> exists s :: s in members && Partner(s, members, pool) == c
  {
    hide SortBy, IdentityKey, ContractIdentity;
    var om, op := SortBy(members, IdentityKey), SortBy(pool, ContractIdentity);
    DistinctPermutes(members, om);
    DistinctPermutes(pool, op);
    forall s | s in members
      ensures s in om
    {
      assert s in multiset(om);
    }
    forall c | c in pool
      ensures exists s :: s in members && Partner(s, members, pool) == c
    {
      assert c in multiset(op);
      var i :| 0 <= i < |op| && op[i] == c;
      assert om[i] in multiset(members);
      assert om[i] in members;
      assert Position(om[i], om) == i;
      assert Partner(om[i], members, pool) == c;
    }
  }

  lemma CohortIsDistinct(p: Pass, k: CohortKey)
    requires p.WellFormed()
    ensures Distinct(Cohort(k, p.subjects)) && Distinct(Pool(k, p.contracts))
  {
    DistinctIdsFilter(k, p.subjects);
    DistinctPool(k, p.contracts);
  }

  // ---- Capacity ----

  /** The subjects of cohort k, by position. */
  ghost predicate InCohort(p: Pass, k: CohortKey, i: nat) { i < |p.subjects| && KeyOf(p.subjects[i]) == k }

  ghost predicate UndefinedCohort(p: Pass, k: CohortKey) {
    Undefined(Cohort(k, p.subjects), Pool(k, p.contracts), p.kind, k.amount, p.base.allocations)
  }

  ghost predicate InterchangeableCohort(p: Pass, k: CohortKey) {
    Interchangeable(Cohort(k, p.subjects), Pool(k, p.contracts), p.kind, k.amount, p.base.allocations)
  }

  /** A cohort is planned as a whole. */
  lemma PlannedAsCohort(p: Pass, k: CohortKey, i: nat)
    requires InCohort(p, k, i)
    ensures p.PlanAt(i).Open? <==> !UndefinedCohort(p, k)
    ensures p.PlanAt(i).Canonical? <==> UndefinedCohort(p, k) && InterchangeableCohort(p, k)
    ensures p.PlanAt(i).Canonical? ==>
              && p.subjects[i] in Cohort(k, p.subjects) && |Cohort(k, p.subjects)| == |Pool(k, p.contracts)|
              && p.PlanAt(i).contract == Partner(p.subjects[i], Cohort(k, p.subjects), Pool(k, p.contracts))
              && p.PlanAt(i).contract in Pool(k, p.contracts)
              && p.DecisionAt(i) == Confirm(p.PlanAt(i).contract, EquivalentCanonical)
    ensures p.PlanAt(i).Blocked? ==> p.DecisionAt(i) == NeedsHuman
  {
    assert p.subjects[i] in Cohort(k, p.subjects);
  }

  lemma CanonicalPartnersDiffer(p: Pass, k: CohortKey, i: nat, j: nat)
    requires p.WellFormed() && InCohort(p, k, i) && InCohort(p, k, j) && i != j && p.PlanAt(i).Canonical?
    ensures p.PlanAt(j).Canonical? && p.PlanAt(i).contract.id != p.PlanAt(j).contract.id
  {
    PlannedAsCohort(p, k, i);
    PlannedAsCohort(p, k, j);
    CohortIsDistinct(p, k);
    PartnersBijective(Cohort(k, p.subjects), Pool(k, p.contracts));
    assert p.subjects[i] != p.subjects[j];
    if p.PlanAt(i).contract.id == p.PlanAt(j).contract.id {
      SameIdSameContract(p, p.PlanAt(i).contract, p.PlanAt(j).contract);
    }
  }

  /** No other subject takes the contract a canonical plan reserves. */
  lemma ReservedUntilUsed(p: Pass, i: nat, j: nat)
    requires p.WellFormed() && i < |p.subjects| && j < |p.subjects| && i != j
    requires p.PlanAt(i).Canonical?
    ensures !Takes(p, j, p.PlanAt(i).contract)
  {
    var k := KeyOf(p.subjects[i]);
    PlannedAsCohort(p, k, i);
    if Takes(p, j, p.PlanAt(i).contract) {
      TakenByOwnCohort(p, j, p.PlanAt(i).contract);
      CanonicalPartnersDiffer(p, k, i, j);
      PlannedAsCohort(p, k, j);
    }
  }

  /** The canonical branch never re-checks capacity; when it is reached the contract is untouched. */
  lemma CanonicalHasExactCapacity(p: Pass, i: nat)
    requires p.WellFormed() && i < |p.subjects| && p.PlanAt(i).Canonical?
    ensures Left(p.PlanAt(i).contract, p.kind, p.After(i).allocations) == p.subjects[i].amount
  {
    var c := p.PlanAt(i).contract;
    forall j | 0 <= j < i
      ensures !Takes(p, j, c)
    {
      ReservedUntilUsed(p, i, j);
    }
    LeftUntouched(p, 0, i, c);
  }

  /** Every confirmation, greedy or canonical, fits what the contract has left at that moment. */
  lemma ConfirmationFits(p: Pass, i: nat)
    requires p.WellFormed() && i < |p.subjects| && p.DecisionAt(i).Confirm?
    ensures p.subjects[i].amount <= Left(p.DecisionAt(i).contract, p.kind, p.After(i).allocations)
  {
    hide Pass.PlanAt, Pass.PoolAt, Pass.After, Pass.WellFormed, Left, Pool, Cohort;
    if p.PlanAt(i).Canonical? {
      CanonicalHasExactCapacity(p, i);
    } else {
      var viable := Viable(p.PoolAt(i), p.kind, p.subjects[i].amount, p.After(i).allocations);
      assert p.DecisionAt(i).contract in viable;
    }
  }

  /** Some confirmed allocation of the kind is on the contract. */
  ghost predicate Used(allocations: seq<Allocation>, kind: Kind, contract: nat) {
    exists a :: a in allocations && a.subject.kind == kind && a.contract == contract
  }

  /** A contract that is used at all, or whose gross amount is not negative, is within its gross amount. */
  ghost predicate Within(contracts: seq<Contract>, kind: Kind, allocations: seq<Allocation>) {
    forall c :: c in contracts && (c.gross >= 0 || Used(allocations, kind, c.id)) ==>
        Confirmed(allocations, kind, c.id) <= c.gross
  }

  lemma StepWithin(p: Pass, i: nat)
    requires p.WellFormed() && i < |p.subjects| && Within(p.contracts, p.kind, p.After(i).allocations)
    ensures Within(p.contracts, p.kind, p.After(i + 1).allocations)
  {
    hide Pass.PlanAt, Pass.PoolAt, Decide, Pool, Confirmed;
    var before, now := p.After(i).allocations, p.After(i + 1).allocations;
    forall c | c in p.contracts && (c.gross >= 0 || Used(now, p.kind, c.id))
      ensures Confirmed(now, p.kind, c.id) <= c.gross
    {
      StepLeft(p, i, c);
      if Takes(p, i, c) {
        TakenByOwnCohort(p, i, c);
        ConfirmationFits(p, i);
      } else if Used(now, p.kind, c.id) {
        var a :| a in now && a.subject.kind == p.kind && a.contract == c.id;
        assert a in before;
      }
    }
  }

  lemma StartsAtBase(p: Pass)
    ensures p.After(0) == p.base
  {
  }

  /** A pass that starts within every contract's gross amount stays within it at every step. */
  lemma {:induction false} PassWithin(p: Pass, n: nat)
    requires p.WellFormed() && n <= |p.subjects| && Within(p.contracts, p.kind, p.base.allocations)
    ensures Within(p.contracts, p.kind, p.After(n).allocations)
  {
    hide *;
    if n == 0 {
      StartsAtBase(p);
    } else {
      PassWithin(p, n - 1);
      StepWithin(p, n - 1);
    }
  }
}
