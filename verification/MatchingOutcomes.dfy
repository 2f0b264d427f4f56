/**
 What one matching pass decides, whatever the subjects and contracts: cohorts do not interfere,
 an undefined chronology is all or nothing, cases list their pool, and the greedy loop has a closed form.
 */
module MatchingOutcomes {
  import opened Keys
  import opened Sequences
  import opened MatchingRules
  import opened MatchingTheorems

  // ---- Cohorts do not interfere ----

  lemma {:induction false} CohortPrefix(k: CohortKey, subjects: seq<Subject>, n: nat)
    requires n <= |subjects|
    ensures |Cohort(k, subjects[..n])| <= |Cohort(k, subjects)|
    ensures Cohort(k, subjects[..n]) == Cohort(k, subjects)[..|Cohort(k, subjects[..n])|]
  {
    if n == |subjects| {
      assert subjects[..n] == subjects;
    } else {
      var front := subjects[..|subjects| - 1];
      assert front[..n] == subjects[..n];
      CohortPrefix(k, front, n);
    }
  }

  lemma {:induction false} CohortOfMembers(k: CohortKey, members: seq<Subject>)
    requires forall s :: s in members ==> KeyOf(s) == k
    ensures Cohort(k, members) == members
  {
    if members == [] {
    } else {
      assert members[|members| - 1] in members;
      CohortOfMembers(k, members[..|members| - 1]);
    }
  }

  /** How many subjects of the cohort precede position n. */
  function Rank(p: Pass, k: CohortKey, n: nat): nat
    requires n <= |p.subjects|
  {
    |Cohort(k, p.subjects[..n])|
  }

  lemma RankOf(p: Pass, i: nat)
    requires i < |p.subjects|
    ensures var k := KeyOf(p.subjects[i]); var q := Alone(p, k); var r := Rank(p, k, i);
            r < |q.subjects| && q.subjects[r] == p.subjects[i] && Rank(p, k, i + 1) == r + 1
            && q.PlanAt(r) == p.PlanAt(i) && q.PoolAt(r) == p.PoolAt(i)
  {
    var k := KeyOf(p.subjects[i]);
    CohortStep(k, p.subjects, i);
    CohortPrefix(k, p.subjects, i + 1);
    CohortOfMembers(k, Cohort(k, p.subjects));
    var r := Rank(p, k, i);
    assert Cohort(k, p.subjects[..i + 1])[r] == p.subjects[i];
  }

  lemma {:induction false} ViableDepends(pool: seq<Contract>, kind: Kind, amount: int, a: seq<Allocation>,
      b: seq<Allocation>)
    requires forall c :: c in pool ==> Left(c, kind, a) == Left(c, kind, b)
    ensures Viable(pool, kind, amount, a) == Viable(pool, kind, amount, b)
  {
    if pool == [] {
    } else {
      assert pool[0] in pool;
      ViableDepends(pool[1..], kind, amount, a, b);
    }
  }

  lemma RankStep(p: Pass, k: CohortKey, n: nat)
    requires n < |p.subjects|
    ensures Rank(p, k, n + 1) == Rank(p, k, n) + (if KeyOf(p.subjects[n]) == k then 1 else 0) <= |Cohort(k, p.subjects)|
  {
    CohortStep(k, p.subjects, n);
    CohortPrefix(k, p.subjects, n + 1);
  }

  lemma LeftAloneStep(p: Pass, k: CohortKey, n: nat, c: Contract)
    requires p.WellFormed() && n < |p.subjects| && c in Pool(k, p.contracts) && Rank(p, k, n) <= |Cohort(k, p.subjects)|
    requires Left(c, p.kind, p.After(n).allocations) == Left(c, p.kind, Alone(p, k).After(Rank(p, k, n)).allocations)
    requires KeyOf(p.subjects[n]) == k ==>
               var r := Rank(p, k, n); var q := Alone(p, k);
               r < |q.subjects| && q.subjects[r] == p.subjects[n] && q.DecisionAt(r) == p.DecisionAt(n)
    ensures Rank(p, k, n + 1) <= |Cohort(k, p.subjects)|
    ensures Left(c, p.kind, p.After(n + 1).allocations)
      == Left(c, p.kind, Alone(p, k).After(Rank(p, k, n + 1)).allocations)
  {
    hide Pass.After, Pass.DecisionAt, Pass.PlanAt, Left, Cohort, Pool, Rank;
    RankStep(p, k, n);
    StepLeft(p, n, c);
    if KeyOf(p.subjects[n]) == k {
      DistinctCohort(p, k);
      StepLeft(Alone(p, k), Rank(p, k, n), c);
    } else if Takes(p, n, c) {
      TakenByOwnCohort(p, n, c);
    }
  }

  lemma LeftAloneStart(p: Pass, k: CohortKey, c: Contract)
    ensures Rank(p, k, 0) == 0 && Alone(p, k).After(0).allocations == p.After(0).allocations
  {
  }

  lemma {:induction false} LeftAlone(p: Pass, k: CohortKey, n: nat, c: Contract)
    requires p.WellFormed() && n <= |p.subjects| && c in Pool(k, p.contracts)
    ensures Rank(p, k, n) <= |Cohort(k, p.subjects)|
    ensures Left(c, p.kind, p.After(n).allocations) == Left(c, p.kind, Alone(p, k).After(Rank(p, k, n)).allocations)
    decreases n, 0
  {
    hide *;
    if n == 0 {
      LeftAloneStart(p, k, c);
    } else {
      LeftAlone(p, k, n - 1, c);
      if KeyOf(p.subjects[n - 1]) == k {
        DecisionAlone(p, n - 1);
      }
      LeftAloneStep(p, k, n - 1, c);
    }
  }

  /** Each subject is decided exactly as it would be if its cohort were matched alone. */
  lemma {:induction false} DecisionAlone(p: Pass, i: nat)
    requires p.WellFormed() && i < |p.subjects|
    ensures var k := KeyOf(p.subjects[i]); var q := Alone(p, k); var r := Rank(p, k, i);
            r < |q.subjects| && q.subjects[r] == p.subjects[i] && q.DecisionAt(r) == p.DecisionAt(i)
    decreases i, 1
  {
    hide Pass.PlanAt, Pass.After, PlanFor, Pool, Cohort, Viable, Left, AllDated, Earliest;
    var k := KeyOf(p.subjects[i]);
    var q, r := Alone(p, k), Rank(p, k, i);
    RankOf(p, i);
    forall c | c in p.PoolAt(i)
      ensures Left(c, p.kind, p.After(i).allocations) == Left(c, p.kind, q.After(r).allocations)
    {
      LeftAlone(p, k, i, c);
    }
    ViableDepends(p.PoolAt(i), p.kind, p.subjects[i].amount, p.After(i).allocations, q.After(r).allocations);
  }

  // ---- Undefined chronology is all or nothing ----

  /** Either every member is confirmed, one contract each, and the whole pool is used up ... */
  lemma UndefinedButInterchangeable(p: Pass, k: CohortKey)
    requires p.WellFormed() && UndefinedCohort(p, k) && InterchangeableCohort(p, k)
    ensures forall i :: InCohort(p, k, i) ==>
        p.DecisionAt(i).Confirm? && p.DecisionAt(i).contract in Pool(k, p.contracts)
    ensures forall i, j :: InCohort(p, k, i) && InCohort(p, k, j) && i != j ==>
        p.DecisionAt(i).contract != p.DecisionAt(j).contract
    ensures forall c :: c in Pool(k, p.contracts) ==> exists i :: InCohort(p, k, i) && p.DecisionAt(i).contract == c
    ensures forall c :: c in Pool(k, p.contracts) ==> Left(c, p.kind, p.After(|p.subjects|).allocations) == 0
  {
    forall i | InCohort(p, k, i)
      ensures p.PlanAt(i).Canonical? && p.DecisionAt(i) == Confirm(p.PlanAt(i).contract, EquivalentCanonical)
      ensures p.PlanAt(i).contract in Pool(k, p.contracts)
    {
      PlannedAsCohort(p, k, i);
    }
    forall i, j | InCohort(p, k, i) && InCohort(p, k, j) && i != j
      ensures p.DecisionAt(i).contract != p.DecisionAt(j).contract
    {
      CanonicalPartnersDiffer(p, k, i, j);
    }
    forall c | c in Pool(k, p.contracts)
      ensures exists i :: InCohort(p, k, i) && p.DecisionAt(i).contract == c
      ensures Left(c, p.kind, p.After(|p.subjects|).allocations) == 0
    {
      var i := MemberFor(p, k, c);
      UsedUp(p, i);
    }
  }

  lemma MemberFor(p: Pass, k: CohortKey, c: Contract) returns (i: nat)
    requires p.WellFormed() && UndefinedCohort(p, k) && InterchangeableCohort(p, k) && c in Pool(k, p.contracts)
    ensures InCohort(p, k, i) && p.PlanAt(i) == Canonical(c)
  {
    var members, pool := Cohort(k, p.subjects), Pool(k, p.contracts);
    CohortIsDistinct(p, k);
    PartnersBijective(members, pool);
    var s :| s in members && Partner(s, members, pool) == c;
    i :| 0 <= i < |p.subjects| && p.subjects[i] == s;
    PlannedAsCohort(p, k, i);
  }

  /** A canonical confirmation leaves its contract with nothing, at the end of the pass too. */
  lemma UsedUp(p: Pass, i: nat)
    requires p.WellFormed() && i < |p.subjects| && p.PlanAt(i).Canonical?
    ensures Left(p.PlanAt(i).contract, p.kind, p.After(|p.subjects|).allocations) == 0
  {
    hide Pass.PlanAt, Pass.PoolAt, Pass.After, Pass.WellFormed, Left, Decide, Pool, Cohort, Partner;
    var c := p.PlanAt(i).contract;
    PlannedAsCohort(p, KeyOf(p.subjects[i]), i);
    CanonicalHasExactCapacity(p, i);
    StepLeft(p, i, c);
    forall j | i + 1 <= j < |p.subjects|
      ensures !Takes(p, j, c)
    {
      ReservedUntilUsed(p, i, j);
    }
    LeftUntouched(p, i + 1, |p.subjects|, c);
  }

  /** ... or no member is confirmed and none of the pool's capacity moves. */
  lemma UndefinedAndBlocked(p: Pass, k: CohortKey)
    requires p.WellFormed() && UndefinedCohort(p, k) && !InterchangeableCohort(p, k)
    ensures forall i :: InCohort(p, k, i) ==> p.DecisionAt(i) == NeedsHuman
    ensures forall c :: c in Pool(k, p.contracts) ==>
              Left(c, p.kind, p.After(|p.subjects|).allocations) == Left(c, p.kind, p.base.allocations)
  {
    forall i | InCohort(p, k, i)
      ensures p.DecisionAt(i) == NeedsHuman
    {
      PlannedAsCohort(p, k, i);
    }
    forall c | c in Pool(k, p.contracts)
      ensures Left(c, p.kind, p.After(|p.subjects|).allocations) == Left(c, p.kind, p.base.allocations)
    {
      forall j | 0 <= j < |p.subjects|
        ensures !Takes(p, j, c)
      {
        if Takes(p, j, c) {
          TakenByOwnCohort(p, j, c);
          assert InCohort(p, k, j);
        }
      }
      LeftUntouched(p, 0, |p.subjects|, c);
    }
  }

  // ---- What a case lists ----

  function CandidatesOf(candidates: seq<Candidate>, caseId: nat): seq<nat> {
    Map(Keep(candidates, (c: Candidate) => c.caseId == caseId), (c: Candidate) => c.contract)
  }

  /** A confirmed case lists its contract, one left to a human its whole static pool, an unmatched one nothing. */
  function Listed(d: Decision, pool: seq<Contract>): seq<nat> {
    match d
    case NoCandidate => []
    case Confirm(c, _) => [c.id]
    case _ => Ids(pool)
  }

  lemma CandidatesConcat(a: seq<Candidate>, b: seq<Candidate>, caseId: nat)
    ensures CandidatesOf(a + b, caseId) == CandidatesOf(a, caseId) + CandidatesOf(b, caseId)
  {
    hide Keep;
    KeepConcat(a, b, (c: Candidate) => c.caseId == caseId);
  }

  lemma {:induction false} OwnRows(rows: seq<Candidate>, caseId: nat, other: nat)
    requires forall c :: c in rows ==> c.caseId == caseId
    ensures CandidatesOf(rows, caseId) == Map(rows, (c: Candidate) => c.contract)
    ensures other != caseId ==> CandidatesOf(rows, other) == []
  {
    if rows == [] {
    } else {
      assert rows[|rows| - 1] in rows;
      OwnRows(rows[..|rows| - 1], caseId, other);
    }
  }

  lemma WriteLists(w: Ledger, s: Subject, pool: seq<Contract>, d: Decision, other: nat)
    requires d.CapacityExceeded? ==> pool != []
    requires forall c :: c in w.candidates ==> c.caseId < |w.cases|
    ensures var w' := Write(w, s, pool, d);
            && (forall c :: c in w'.candidates ==> c.caseId < |w'.cases|) && |w'.cases| == |w.cases| + 1
            && CandidatesOf(w'.candidates, |w.cases|) == Listed(d, pool)
            && (other < |w.cases| ==> CandidatesOf(w'.candidates, other) == CandidatesOf(w.candidates, other))
  {
    hide CandidatesOf;
    var caseId := |w.cases|;
    var rows := match d
                case NoCandidate => []
                case Confirm(c, _) => [Candidate(caseId, c.id)]
                case _ => CandidateRows(caseId, pool);
    assert Write(w, s, pool, d).candidates == w.candidates + rows;
    CandidatesConcat(w.candidates, rows, caseId);
    CandidatesConcat(w.candidates, rows, other);
    OwnRows(rows, caseId, other);
    NoRowsYet(w.candidates, caseId);
    assert Map(rows, (c: Candidate) => c.contract) == Listed(d, pool);
  }

  lemma NoRowsYet(candidates: seq<Candidate>, caseId: nat)
    requires forall c :: c in candidates ==> c.caseId < caseId
    ensures CandidatesOf(candidates, caseId) == []
  {
    KeepNone(candidates, (c: Candidate) => c.caseId == caseId);
  }

  /** Through the rest of the pass every case keeps the list its decision gave it. */
  lemma {:induction false} CasesListTheirPool(p: Pass, n: nat, i: nat)
    requires n <= |p.subjects| && forall c :: c in p.base.candidates ==> c.caseId < |p.base.cases|
    ensures |p.After(n).cases| == |p.base.cases| + n
      && forall c :: c in p.After(n).candidates ==> c.caseId < |p.After(n).cases|
    ensures i < n ==> CandidatesOf(p.After(n).candidates, |p.base.cases| + i) == Listed(p.DecisionAt(i), p.PoolAt(i))
    decreases n
  {
    hide Pass.DecisionAt, Pass.PoolAt, CandidatesOf, Write, Listed;
    if n == 0 {
    } else {
      CasesListTheirPool(p, n - 1, i);
      WriteLists(p.After(n - 1), p.subjects[n - 1], p.PoolAt(n - 1), p.DecisionAt(n - 1), |p.base.cases| + i);
    }
  }

  // ---- The greedy loop in closed form ----

  lemma {:induction false} PoolOrdered(k: CohortKey, contracts: seq<Contract>)
    requires Ordered(contracts, ContractOrder)
    ensures Ordered(Pool(k, contracts), ContractOrder)
  {
    if contracts == [] || k.party.None? {
    } else {
      PoolOrdered(k, contracts[1..]);
      forall c | c in Pool(k, contracts[1..])
        ensures !Before(ContractOrder(c), ContractOrder(contracts[0]))
      {
        var i :| 0 <= i < |contracts[1..]| && contracts[1..][i] == c;
        assert contracts[i + 1] == c;
      }
    }
  }

  lemma PrependOrdered(c: Contract, v: seq<Contract>)
    requires Ordered(v, ContractOrder) && DistinctContracts(v)
    requires forall d :: d in v ==> !Before(ContractOrder(d), ContractOrder(c)) && d.id != c.id
    ensures Ordered([c] + v, ContractOrder) && DistinctContracts([c] + v)
  {
    hide Before, ContractOrder;
  }

  lemma HeadBefore(pool: seq<Contract>, d: Contract)
    requires pool != [] && Ordered(pool, ContractOrder) && DistinctContracts(pool) && d in pool[1..]
    ensures !Before(ContractOrder(d), ContractOrder(pool[0])) && d.id != pool[0].id
  {
    hide Before, ContractOrder;
    var i :| 0 <= i < |pool[1..]| && pool[1..][i] == d;
    assert pool[i + 1] == d;
  }

  lemma DistinctTail(pool: seq<Contract>)
    requires pool != [] && DistinctContracts(pool)
    ensures DistinctContracts(pool[1..])
  {
  }

  lemma {:induction false} ViableOrdered(pool: seq<Contract>, kind: Kind, amount: int, a: seq<Allocation>)
    requires Ordered(pool, ContractOrder)
    requires DistinctContracts(pool)
    ensures var v := Viable(pool, kind, amount, a);
            Ordered(v, ContractOrder) && DistinctContracts(v)
  {
    hide Before, ContractOrder, Left, Ordered, DistinctContracts;
    if pool == [] {
      NoneOrdered();
    } else {
      OrderedTail(pool, ContractOrder);
      DistinctTail(pool);
      ViableOrdered(pool[1..], kind, amount, a);
      var rest := Viable(pool[1..], kind, amount, a);
      forall d | d in rest
        ensures !Before(ContractOrder(d), ContractOrder(pool[0])) && d.id != pool[0].id
      {
        HeadBefore(pool, d);
      }
      if amount <= Left(pool[0], kind, a) {
        PrependOrdered(pool[0], rest);
      } else {
        assert [] + rest == rest;
      }
    }
  }

  lemma NoneOrdered()
    ensures Ordered([], ContractOrder) && DistinctContracts([])
  {
  }

  lemma DatedOrderIsChronology(a: Contract, b: Contract)
    requires a.date.Some? && b.date.Some? && a.id != b.id && !Before(ContractOrder(b), ContractOrder(a))
    ensures Before(ChronologyKey(a), ChronologyKey(b)) && !Before(ChronologyKey(b), ChronologyKey(a))
  {
    assert ContractOrder(a)[1..] == ChronologyKey(a) && ContractOrder(b)[1..] == ChronologyKey(b);
    BeforeStrict(ChronologyKey(a), ChronologyKey(b), ChronologyKey(a));
    assert ChronologyKey(a)[2] == Num(a.id) && ChronologyKey(b)[2] == Num(b.id);
  }

  /** v lists dated contracts, strictly by (date, number, id). */
  ghost predicate ChronologicalList(v: seq<Contract>) {
    AllDated(v) && forall i, j ::
        0 <= i < j < |v| ==> Before(ChronologyKey(v[i]), ChronologyKey(v[j])) && v[i].id != v[j].id
  }

  lemma {:induction false} EarliestIsFirst(v: seq<Contract>)
    requires v != [] && ChronologicalList(v)
    ensures Earliest(v) == v[0]
  {
    if |v| == 1 {
    } else {
      var front := v[..|v| - 1];
      EarliestIsFirst(front);
      BeforeStrict(ChronologyKey(v[0]), ChronologyKey(v[|v| - 1]), []);
    }
  }

  lemma {:induction false} ViableLosesHead(pool: seq<Contract>, kind: Kind, amount: int, a: seq<Allocation>,
      b: seq<Allocation>)
    requires Viable(pool, kind, amount, a) != []
    requires DistinctContracts(pool)
    requires var x := Viable(pool, kind, amount, a)[0];
             Left(x, kind, b) < amount && forall c :: c in pool && c.id != x.id ==> Left(c, kind, b) == Left(c, kind, a)
    ensures Viable(pool, kind, amount, b) == Viable(pool, kind, amount, a)[1..]
  {
    var x := Viable(pool, kind, amount, a)[0];
    if amount <= Left(pool[0], kind, a) {
      forall c | c in pool[1..]
        ensures c.id != x.id
      {
        var i :| 0 <= i < |pool[1..]| && pool[1..][i] == c;
        assert pool[i + 1] == c;
      }
      ViableDepends(pool[1..], kind, amount, a, b);
    } else {
      assert x in pool[1..];
      ViableLosesHead(pool[1..], kind, amount, a, b);
    }
  }

  /** Chronology is defined for the cohort and no contract of its pool is over- or negatively allocated. */
  ghost predicate GreedyCohort(p: Pass, k: CohortKey) {
    && p.WellFormed()
    && Ordered(p.contracts, ContractOrder)
    && k.amount > 0
    && Pool(k, p.contracts) != []
    && AllSubjectsDated(Cohort(k, p.subjects))
    && AllDated(FirstViable(p, k))
    && forall c :: c in Pool(k, p.contracts) ==> Confirmed(p.base.allocations, p.kind, c.id) >= 0
  }

  /** The contracts that could take a member before the pass, earliest first. */
  ghost function FirstViable(p: Pass, k: CohortKey): seq<Contract> {
    Viable(Pool(k, p.contracts), p.kind, k.amount, p.base.allocations)
  }

  ghost function GreedyDecision(p: Pass, k: CohortKey, r: nat): Decision {
    var v := FirstViable(p, k);
    if r < |v| then Confirm(v[r], if |Pool(k, p.contracts)| > 1 then Chronological else Unique) else CapacityExceeded
  }

  lemma FirstViableChronological(p: Pass, k: CohortKey)
    requires GreedyCohort(p, k)
    ensures ChronologicalList(FirstViable(p, k))
  {
    var v := FirstViable(p, k);
    PoolOrdered(k, p.contracts);
    DistinctPool(k, p.contracts);
    ViableOrdered(Pool(k, p.contracts), p.kind, k.amount, p.base.allocations);
    forall i, j | 0 <= i < j < |v|
      ensures Before(ChronologyKey(v[i]), ChronologyKey(v[j]))
    {
      assert v[i] in v && v[j] in v;
      DatedOrderIsChronology(v[i], v[j]);
    }
  }

  function Min(a: nat, b: nat): nat { if a < b then a else b }

  ghost predicate GreedyState(p: Pass, k: CohortKey, r: nat)
    requires r <= |Cohort(k, p.subjects)|
  {
    var v, now := FirstViable(p, k), Alone(p, k).After(r).allocations;
    && Viable(Pool(k, p.contracts), p.kind, k.amount, now) == v[Min(r, |v|)..]
    && forall c :: c in Pool(k, p.contracts) ==> Left(c, p.kind, now) <= k.amount
  }

  lemma GreedyPlanIsOpen(p: Pass, k: CohortKey, r: nat)
    requires GreedyCohort(p, k) && r < |Cohort(k, p.subjects)|
    ensures Alone(p, k).PlanAt(r) == Open
  {
    hide Pass.PlanAt, Pass.DecisionAt, Pool, Cohort, Viable;
    CohortOfMembers(k, Cohort(k, p.subjects));
    assert Alone(p, k).subjects[r] in Alone(p, k).subjects;
    PlannedAsCohort(Alone(p, k), k, r);
  }

  lemma DecideGreedily(p: Pass, k: CohortKey, r: nat)
    requires GreedyCohort(p, k) && r < |Cohort(k, p.subjects)| && GreedyState(p, k, r)
    ensures Alone(p, k).DecisionAt(r) == GreedyDecision(p, k, r)
  {
    hide Pass.PlanAt, Pass.After, PlanFor, Pool, Cohort, Viable, Left, Ordered, Before, Earliest;
    var q, v := Alone(p, k), FirstViable(p, k);
    GreedyPlanIsOpen(p, k, r);
    assert q.subjects[r] in q.subjects;
    FirstViableChronological(p, k);
    if r < |v| {
      assert v[r..][0] == v[r];
      assert ChronologicalList(v[r..]) by {
        forall c | c in v[r..] ensures c in v {}
      }
      EarliestIsFirst(v[r..]);
    }
  }

  /** The capacities the r-th greedy decision of the cohort leaves behind. */
  lemma GreedyLeft(p: Pass, k: CohortKey, r: nat, c: Contract)
    requires GreedyCohort(p, k) && r < |Cohort(k, p.subjects)| && c in Pool(k, p.contracts)
    requires Alone(p, k).DecisionAt(r) == GreedyDecision(p, k, r)
    ensures Left(c, p.kind, Alone(p, k).After(r + 1).allocations)
         == Left(c, p.kind, Alone(p, k).After(r).allocations)
            - (if r < |FirstViable(p, k)| && FirstViable(p, k)[r].id == c.id then k.amount else 0)
  {
    hide Pass.After, Pass.DecisionAt, Pass.PlanAt, Left, FirstViable;
    var q := Alone(p, k);
    assert q.subjects[r] in q.subjects;
    DistinctCohort(p, k);
    StepLeft(q, r, c);
  }

  lemma GreedyStep(p: Pass, k: CohortKey, r: nat)
    requires GreedyCohort(p, k) && r < |Cohort(k, p.subjects)| && GreedyState(p, k, r)
    requires Alone(p, k).DecisionAt(r) == GreedyDecision(p, k, r)
    ensures GreedyState(p, k, r + 1)
  {
    hide Pass.After, Pass.DecisionAt, Pass.PlanAt, Left, Pool, Cohort, Viable;
    var v, pool := FirstViable(p, k), Pool(k, p.contracts);
    var before, now := Alone(p, k).After(r).allocations, Alone(p, k).After(r + 1).allocations;
    DistinctPool(k, p.contracts);
    forall c | c in pool
      ensures Left(c, p.kind, now) == Left(c, p.kind, before) - (if r < |v| && v[r].id == c.id then k.amount else 0)
    {
      GreedyLeft(p, k, r, c);
    }
    if r < |v| {
      assert Viable(pool, p.kind, k.amount, before)[0] == v[r] && v[r] in v;
      ViableLosesHead(pool, p.kind, k.amount, before, now);
      assert v[r..][1..] == v[r + 1..];
    } else {
      ViableDepends(pool, p.kind, k.amount, before, now);
    }
  }

  lemma {:induction false} GreedyProgress(p: Pass, k: CohortKey, r: nat)
    requires GreedyCohort(p, k) && r <= |Cohort(k, p.subjects)|
    ensures GreedyState(p, k, r)
  {
    hide *;
    if r == 0 {
      GreedyStart(p, k);
    } else {
      GreedyProgress(p, k, r - 1);
      DecideGreedily(p, k, r - 1);
      GreedyStep(p, k, r - 1);
    }
  }

  lemma GreedyStart(p: Pass, k: CohortKey)
    requires GreedyCohort(p, k)
    ensures GreedyState(p, k, 0)
  {
    assert FirstViable(p, k)[0..] == FirstViable(p, k);
  }

  /** The i-th member of a cohort gets the i-th initially viable contract by date, number and id,
      and members beyond them are reported as exceeding capacity. */
  lemma GreedyClosedForm(p: Pass, i: nat)
    requires i < |p.subjects| && GreedyCohort(p, KeyOf(p.subjects[i]))
    ensures var k := KeyOf(p.subjects[i]);
            p.DecisionAt(i) == GreedyDecision(p, k, Rank(p, k, i)) && ChronologicalList(FirstViable(p, k))
  {
    var k := KeyOf(p.subjects[i]);
    DecisionAlone(p, i);
    GreedyProgress(p, k, Rank(p, k, i));
    DecideGreedily(p, k, Rank(p, k, i));
    FirstViableChronological(p, k);
  }

  /** How many of the first n subjects are members of cohort k and confirmed. */
  ghost function ConfirmedMembers(p: Pass, k: CohortKey, n: nat): nat
    requires n <= |p.subjects|
  {
    if n == 0 then 0
    else ConfirmedMembers(p, k, n - 1) + (if InCohort(p, k, n - 1) && p.DecisionAt(n - 1).Confirm? then 1 else 0)
  }

  /** With m members and v viable contracts, exactly min(m, v) members are confirmed. */
  lemma {:induction false} GreedyCount(p: Pass, k: CohortKey, n: nat)
    requires n <= |p.subjects| && GreedyCohort(p, k)
    ensures ConfirmedMembers(p, k, n) == Min(Rank(p, k, n), |FirstViable(p, k)|)
  {
    hide Pass.DecisionAt, Pass.After, Cohort, FirstViable, Pool, GreedyCohort;
    if n == 0 {
    } else {
      GreedyCount(p, k, n - 1);
      CohortStep(k, p.subjects, n - 1);
      if InCohort(p, k, n - 1) {
        GreedyClosedForm(p, n - 1);
      }
    }
  }
}
