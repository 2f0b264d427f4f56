/**
 When each decision of the matching pass is taken, said of the rows alone: contracts, subjects and what is confirmed
 at that moment.
 */
module MatchingDecisions {
  import opened Keys
  import opened Sequences
  import opened MatchingRules
  import opened MatchingTheorems

  // ---- The rows a decision turns on ----

  /** The contract has the subject's counterparty and amount. */
  ghost predicate Corresponds(p: Pass, s: Subject, c: Contract) {
    c in p.contracts && s.party.norm.Some? && c.party.norm == s.party.norm && c.gross == s.amount
  }

  /** ... and, once the first n subjects are decided, room for the subject. */
  ghost predicate HasRoom(p: Pass, s: Subject, c: Contract, n: nat)
    requires n <= |p.subjects|
  {
    Corresponds(p, s, c) && Confirmed(p.After(n).allocations, p.kind, c.id) + s.amount <= c.gross
  }

  /** The subjects at i and j have the same counterparty and amount. */
  ghost predicate Competes(p: Pass, i: nat, j: int)
    requires i < |p.subjects|
  {
    && 0 <= j < |p.subjects|
    && p.subjects[j].party.norm == p.subjects[i].party.norm && p.subjects[j].amount == p.subjects[i].amount
  }

  /** Several subjects compete for a contract that had room when the pass began, and one of them or of such contracts
      has no date. */
  ghost predicate ChronologyMissing(p: Pass, i: nat)
    requires i < |p.subjects|
  {
    var s := p.subjects[i];
    && (exists j :: j != i && Competes(p, i, j))
    && (exists c :: HasRoom(p, s, c, 0))
    && ((exists j :: Competes(p, i, j) && p.subjects[j].date.None?)
        || (exists c :: HasRoom(p, s, c, 0) && c.date.None?))
  }

  /** The two subjects differ in nothing but what names them. */
  ghost predicate SameButName(s: Subject, t: Subject) {
    if s.Invoice? && t.Invoice? then
      t == s.(id := t.id, externalKey := t.externalKey, digitalNo := t.digitalNo, invoiceNo := t.invoiceNo)
    else if s.Payment? && t.Payment? then t == s.(id := t.id, bankReference := t.bankReference)
    else false
  }

  /** The two contracts differ in nothing but id, number and counterparty as stated. */
  ghost predicate SameButNumber(c: Contract, d: Contract) {
    d == c.(id := d.id, no := d.no, party := d.party)
  }

  function Competitors(p: Pass, i: nat): set<nat>
    requires i < |p.subjects|
  {
    set j: nat | j < |p.subjects| && p.subjects[j].party.norm == p.subjects[i].party.norm
                 && p.subjects[j].amount == p.subjects[i].amount :: j
  }

  function Correspondents(p: Pass, i: nat): set<Contract>
    requires i < |p.subjects|
  {
    set c | c in p.contracts && p.subjects[i].party.norm.Some? && c.party.norm == p.subjects[i].party.norm
            && c.gross == p.subjects[i].amount
  }

  /** The corresponding contracts are named and told apart by their names, and alike in everything else. */
  ghost predicate ContractsAlike(p: Pass, s: Subject) {
    && (forall c :: Corresponds(p, s, c) ==> c.no != "" && c.party.raw.Some? && c.party.raw.value != "")
    && (forall c, d :: Corresponds(p, s, c) && Corresponds(p, s, d) ==>
          SameButNumber(c, d) && (c.no == d.no && c.party.raw == d.party.raw ==> c == d))
  }

  /** And so are the subjects that compete for them. */
  ghost predicate SubjectsAlike(p: Pass, i: nat)
    requires i < |p.subjects|
  {
    && (forall j :: Competes(p, i, j) ==> Identity(p.subjects[j]).Some?)
    && (forall j, l :: Competes(p, i, j) && Competes(p, i, l) ==> SameButName(p.subjects[j], p.subjects[l]))
    && (forall j, l :: Competes(p, i, j) && Competes(p, i, l) && j != l ==>
          Identity(p.subjects[j]) != Identity(p.subjects[l]))
  }

  /** As many contracts as subjects, each with room for exactly one, so that any pairing does as well as another. */
  ghost predicate AnyPairingServes(p: Pass, i: nat)
    requires i < |p.subjects|
  {
    var s := p.subjects[i];
    && |Correspondents(p, i)| == |Competitors(p, i)|
    && (forall c :: Corresponds(p, s, c) ==> Confirmed(p.base.allocations, p.kind, c.id) + s.amount == c.gross)
    && ContractsAlike(p, s)
    && SubjectsAlike(p, i)
  }

  /** The contract is dated before the other; on one date numbers and then ids decide. */
  ghost predicate Earlier(c: Contract, d: Contract) {
    && c.date.Some? && d.date.Some?
    && (c.date.value < d.date.value
        || (c.date == d.date && (StringBefore(c.no, d.no) || (c.no == d.no && c.id < d.id))))
  }

  // ---- Pools, cohorts and room ----

  lemma PoolIs(p: Pass, i: nat)
    requires i < |p.subjects|
    ensures forall c :: c in p.PoolAt(i) <==> Corresponds(p, p.subjects[i], c)
  {
  }

  lemma ViableIs(p: Pass, i: nat, n: nat)
    requires i < |p.subjects| && n <= |p.subjects|
    ensures forall c :: c in Viable(p.PoolAt(i), p.kind, p.subjects[i].amount, p.After(n).allocations)
                   <==> HasRoom(p, p.subjects[i], c, n)
  {
    hide Pool, Viable, Pass.After;
    PoolIs(p, i);
  }

  lemma {:induction false} ViableDistinct(pool: seq<Contract>, kind: Kind, amount: int, a: seq<Allocation>)
    requires DistinctContracts(pool)
    ensures DistinctContracts(Viable(pool, kind, amount, a))
  {
    hide Left;
    if pool == [] {
    } else {
      ViableDistinct(pool[1..], kind, amount, a);
      forall c | c in Viable(pool[1..], kind, amount, a)
        ensures c.id != pool[0].id
      {
        var j :| 0 <= j < |pool[1..]| && pool[1..][j] == c;
        assert pool[j + 1] == c;
      }
    }
  }

  lemma MembersAre(p: Pass, i: nat)
    requires p.WellFormed() && i < |p.subjects|
    ensures var members := Cohort(KeyOf(p.subjects[i]), p.subjects);
            && (forall j :: Competes(p, i, j) ==> p.subjects[j] in members)
            && (forall s :: s in members ==> exists j :: Competes(p, i, j) && p.subjects[j] == s)
  {
    var members := Cohort(KeyOf(p.subjects[i]), p.subjects);
    forall s | s in members
      ensures exists j :: Competes(p, i, j) && p.subjects[j] == s
    {
      var j :| 0 <= j < |p.subjects| && p.subjects[j] == s;
      assert Competes(p, i, j);
    }
  }

  /** Several members are several subjects. */
  lemma SeveralCompete(p: Pass, i: nat)
    requires p.WellFormed() && i < |p.subjects|
    ensures |Cohort(KeyOf(p.subjects[i]), p.subjects)| >= 2 <==> exists j :: j != i && Competes(p, i, j)
  {
    hide Cohort;
    var members := Cohort(KeyOf(p.subjects[i]), p.subjects);
    MembersAre(p, i);
    DistinctCohort(p, KeyOf(p.subjects[i]));
    assert Competes(p, i, i);
    if |members| >= 2 {
      assert members[0] in members && members[1] in members && members[0].id != members[1].id;
      var x :| Competes(p, i, x) && p.subjects[x] == members[0];
      var y :| Competes(p, i, y) && p.subjects[y] == members[1];
      assert x != i || y != i;
    }
    if j :| j != i && Competes(p, i, j) {
      assert p.subjects[j].id != p.subjects[i].id;
      assert p.subjects[j] in members && p.subjects[i] in members;
    }
  }

  lemma MissingIsUndefined(p: Pass, i: nat)
    requires p.WellFormed() && i < |p.subjects|
    ensures Undefined(Cohort(KeyOf(p.subjects[i]), p.subjects), p.PoolAt(i), p.kind, p.subjects[i].amount,
                      p.base.allocations) == ChronologyMissing(p, i)
  {
    hide Cohort, Pool, Viable;
    var s, members := p.subjects[i], Cohort(KeyOf(p.subjects[i]), p.subjects);
    var viable := Viable(p.PoolAt(i), p.kind, s.amount, p.base.allocations);
    assert p.After(0) == p.base;
    SeveralCompete(p, i);
    MembersAre(p, i);
    ViableIs(p, i, 0);
    assert viable != [] ==> viable[0] in viable;
    assert AllSubjectsDated(members) <==> !exists j :: Competes(p, i, j) && p.subjects[j].date.None?;
    assert AllDated(viable) <==> !exists c :: HasRoom(p, s, c, 0) && c.date.None?;
  }

  lemma {:induction false} SetOfDistinct<T>(s: seq<T>, x: set<T>)
    requires Distinct(s) && forall e :: e in x <==> e in s
    ensures |x| == |s|
  {
    if s == [] {
      assert x == {};
    } else {
      var n := |s| - 1;
      assert s[n] in s && s[n] !in s[..n];
      assert forall e :: e in s <==> e in s[..n] || e == s[n];
      SetOfDistinct(s[..n], x - {s[n]});
    }
  }

  lemma {:induction false} PlacesOfMembers(p: Pass, i: nat, n: nat, places: set<nat>)
    requires p.WellFormed() && i < |p.subjects| && n <= |p.subjects|
    requires forall j: nat :: j in places <==> j < n && Competes(p, i, j)
    ensures |places| == |Cohort(KeyOf(p.subjects[i]), p.subjects[..n])|
  {
    if n == 0 {
      assert places == {};
    } else {
      CohortStep(KeyOf(p.subjects[i]), p.subjects, n - 1);
      PlacesOfMembers(p, i, n - 1, places - {n - 1});
    }
  }

  lemma SizesAre(p: Pass, i: nat)
    requires p.WellFormed() && i < |p.subjects|
    ensures |Correspondents(p, i)| == |p.PoolAt(i)|
    ensures |Competitors(p, i)| == |Cohort(KeyOf(p.subjects[i]), p.subjects)|
  {
    hide Cohort, Pool;
    PoolIs(p, i);
    CohortIsDistinct(p, KeyOf(p.subjects[i]));
    SetOfDistinct(p.PoolAt(i), Correspondents(p, i));
    PlacesOfMembers(p, i, |p.subjects|, Competitors(p, i));
    assert p.subjects[..|p.subjects|] == p.subjects;
  }

  // ---- Interchangeable cohorts ----

  lemma StateTells(s: Subject, t: Subject)
    requires s.Kind() == t.Kind() && s.party.norm == t.party.norm
    ensures StateOf(s) == StateOf(t) <==> SameButName(s, t)
  {
  }

  lemma ContractStateTells(c: Contract, d: Contract)
    ensures ContractStateOf(c) == ContractStateOf(d) <==> SameButNumber(c, d)
  {
  }

  lemma NamesTell(c: Contract, d: Contract)
    requires Filled(c.party.raw) && Filled(d.party.raw)
    ensures ContractIdentity(c) == ContractIdentity(d) <==> c.no == d.no && c.party.raw == d.party.raw
  {
    assert ContractIdentity(c)[0] == Text(c.no) && ContractIdentity(c)[1] == Text(c.party.raw.value);
    assert ContractIdentity(d)[0] == Text(d.no) && ContractIdentity(d)[1] == Text(d.party.raw.value);
  }

  lemma PoolAlike(p: Pass, i: nat)
    requires p.WellFormed() && i < |p.subjects|
    ensures var pool := p.PoolAt(i);
            ContractsAlike(p, p.subjects[i]) <==>
              && (forall c :: c in pool ==> c.no != "" && Filled(c.party.raw))
              && (forall x, y :: 0 <= x < y < |pool| ==> ContractIdentity(pool[x]) != ContractIdentity(pool[y]))
              && (forall c, d :: c in pool && d in pool ==> ContractStateOf(c) == ContractStateOf(d))
  {
    hide Pool, ContractIdentity, ContractStateOf, SameButNumber, Corresponds;
    var s, pool := p.subjects[i], p.PoolAt(i);
    PoolIs(p, i);
    CohortIsDistinct(p, KeyOf(s));
    forall c, d | c in pool && d in pool
      ensures ContractStateOf(c) == ContractStateOf(d) <==> SameButNumber(c, d)
    {
      ContractStateTells(c, d);
    }
    if forall c :: c in pool ==> c.no != "" && Filled(c.party.raw) {
      forall x, y | 0 <= x < |pool| && 0 <= y < |pool|
        ensures ContractIdentity(pool[x]) == ContractIdentity(pool[y])
           <==> pool[x].no == pool[y].no && pool[x].party.raw == pool[y].party.raw
      {
        NamesTell(pool[x], pool[y]);
      }
    }
  }

  lemma CohortAlike(p: Pass, i: nat)
    requires p.WellFormed() && i < |p.subjects|
    ensures var members := Cohort(KeyOf(p.subjects[i]), p.subjects);
            SubjectsAlike(p, i) <==>
              && (forall s :: s in members ==> Identity(s).Some?)
              && (forall x, y :: 0 <= x < y < |members| ==> Identity(members[x]) != Identity(members[y]))
              && (forall s, t :: s in members && t in members ==> StateOf(s) == StateOf(t))
  {
    hide Cohort, Identity, StateOf, SameButName, SubjectsAlike;
    var members := Cohort(KeyOf(p.subjects[i]), p.subjects);
    MembersAre(p, i);
    CohortIsDistinct(p, KeyOf(p.subjects[i]));
    if SubjectsAlike(p, i) {
      AlikeByPlace(p, i, members);
    }
    if && (forall s :: s in members ==> Identity(s).Some?)
       && (forall x, y :: 0 <= x < y < |members| ==> Identity(members[x]) != Identity(members[y]))
       && (forall s, t :: s in members && t in members ==> StateOf(s) == StateOf(t)) {
      AlikeByMember(p, i, members);
    }
  }

  lemma AlikeByPlace(p: Pass, i: nat, members: seq<Subject>)
    requires p.WellFormed() && i < |p.subjects| && Distinct(members) && SubjectsAlike(p, i)
    requires forall s :: s in members ==> exists j :: Competes(p, i, j) && p.subjects[j] == s
    ensures forall s :: s in members ==> Identity(s).Some?
    ensures forall x, y :: 0 <= x < y < |members| ==> Identity(members[x]) != Identity(members[y])
    ensures forall s, t :: s in members && t in members ==> StateOf(s) == StateOf(t)
  {
    hide Identity, StateOf, SameButName;
    forall s, t | s in members && t in members
      ensures StateOf(s) == StateOf(t) && Identity(s).Some?
      ensures s != t ==> Identity(s) != Identity(t)
    {
      var j :| Competes(p, i, j) && p.subjects[j] == s;
      var l :| Competes(p, i, l) && p.subjects[l] == t;
      StateTells(s, t);
    }
  }

  lemma AlikeByMember(p: Pass, i: nat, members: seq<Subject>)
    requires p.WellFormed() && i < |p.subjects|
    requires forall j :: Competes(p, i, j) ==> p.subjects[j] in members
    requires forall s :: s in members ==> Identity(s).Some?
    requires forall x, y :: 0 <= x < y < |members| ==> Identity(members[x]) != Identity(members[y])
    requires forall s, t :: s in members && t in members ==> StateOf(s) == StateOf(t)
    ensures SubjectsAlike(p, i)
  {
    hide Identity, StateOf, SameButName;
    forall j, l | Competes(p, i, j) && Competes(p, i, l)
      ensures SameButName(p.subjects[j], p.subjects[l])
      ensures j != l ==> Identity(p.subjects[j]) != Identity(p.subjects[l])
    {
      var s, t := p.subjects[j], p.subjects[l];
      StateTells(s, t);
      if j != l {
        var x :| 0 <= x < |members| && members[x] == s;
        var y :| 0 <= y < |members| && members[y] == t;
        assert s.id != t.id && x != y;
      }
    }
  }

  lemma ServesIsInterchangeable(p: Pass, i: nat)
    requires p.WellFormed() && i < |p.subjects| && exists j :: j != i && Competes(p, i, j)
    ensures Interchangeable(Cohort(KeyOf(p.subjects[i]), p.subjects), p.PoolAt(i), p.kind, p.subjects[i].amount,
                            p.base.allocations) == AnyPairingServes(p, i)
  {
    hide Cohort, Pool, Confirmed, ContractsAlike, SubjectsAlike, Correspondents, Competitors, Corresponds, Competes,
      ContractIdentity, ContractStateOf, Identity, StateOf;
    PoolIs(p, i);
    SizesAre(p, i);
    SeveralCompete(p, i);
    PoolAlike(p, i);
    CohortAlike(p, i);
  }

  // ---- The decisions ----

  lemma {:induction false} EarliestLeast(v: seq<Contract>, c: Contract)
    requires v != [] && c in v
    ensures !Before(ChronologyKey(c), ChronologyKey(Earliest(v)))
  {
    hide ChronologyKey, Before;
    if |v| == 1 {
      BeforeStrict(ChronologyKey(c), ChronologyKey(c), []);
    } else {
      var front, last := v[..|v| - 1], v[|v| - 1];
      var best := Earliest(front);
      if c in front {
        EarliestLeast(front, c);
      }
      BeforeStrict(ChronologyKey(c), ChronologyKey(best), ChronologyKey(last));
      BeforeStrict(ChronologyKey(last), ChronologyKey(best), ChronologyKey(c));
      BeforeStrict(ChronologyKey(c), ChronologyKey(last), ChronologyKey(best));
      assert c == last || c in front;
    }
  }

  lemma NotLaterIsEarlier(c: Contract, d: Contract)
    requires c.date.Some? && d.date.Some? && c.id != d.id && !Before(ChronologyKey(d), ChronologyKey(c))
    ensures Earlier(c, d)
  {
    var a, b := ChronologyKey(c), ChronologyKey(d);
    BeforeStrict(a, b, []);
    assert a[2] != b[2];
    assert a[1..] == [Text(c.no), Num(c.id)] && b[1..] == [Text(d.no), Num(d.id)];
    assert a[1..][1..] == [Num(c.id)] && b[1..][1..] == [Num(d.id)];
    BeforeStep(a, b);
    BeforeStep(a[1..], b[1..]);
    BeforeStep([Num(c.id)], [Num(d.id)]);
    NothingBefore([Num(c.id)][1..], [Num(d.id)][1..]);
  }

  lemma BeforeStep(a: Key, b: Key)
    requires a != [] && b != []
    ensures Before(a, b) <==> FieldBefore(a[0], b[0]) || (a[0] == b[0] && Before(a[1..], b[1..]))
  {
  }

  lemma NothingBefore(a: Key, b: Key)
    requires b == []
    ensures !Before(a, b)
  {
  }

  /** What Open, the plan without an undefined chronology, comes to. */
  lemma OpenDecision(p: Pass, i: nat)
    requires p.WellFormed() && i < |p.subjects| && p.PlanAt(i).Open?
    ensures var d, s := p.DecisionAt(i), p.subjects[i];
            && (d.NoCandidate? <==> !exists c :: Corresponds(p, s, c))
            && (d.CapacityExceeded? <==> (exists c :: Corresponds(p, s, c)) && !exists c :: HasRoom(p, s, c, i))
            && (d.NeedsHuman? <==>
                  && (exists c, e :: c != e && HasRoom(p, s, c, i) && HasRoom(p, s, e, i))
                  && (s.date.None? || exists c :: HasRoom(p, s, c, i) && c.date.None?))
            && (d.Confirm? ==> HasRoom(p, s, d.contract, i) && !d.basis.EquivalentCanonical?)
            && (d.Confirm? ==> forall e :: HasRoom(p, s, e, i) && e != d.contract ==>
                  s.date.Some? && Earlier(d.contract, e))
            && (d.Confirm? ==>
                  (d.basis.Unique? <==> !exists c, e :: c != e && Corresponds(p, s, c) && Corresponds(p, s, e)))
  {
    hide Pool, Viable, Pass.PlanAt, Pass.After, Earliest, Earlier, HasRoom, Corresponds;
    var s, pool := p.subjects[i], p.PoolAt(i);
    var viable := Viable(pool, p.kind, s.amount, p.After(i).allocations);
    PoolIs(p, i);
    ViableIs(p, i, i);
    DistinctPool(KeyOf(s), p.contracts);
    ViableDistinct(pool, p.kind, s.amount, p.After(i).allocations);
    OneOrSeveral(pool);
    OneOrSeveral(viable);
    if |viable| > 1 && AllDated(viable) {
      forall e | e in viable && e != Earliest(viable)
        ensures Earlier(Earliest(viable), e)
      {
        EarliestLeast(viable, e);
        NotLaterIsEarlier(Earliest(viable), e);
      }
    }
  }

  /** A list of different contracts: none, one, or two that differ. */
  lemma OneOrSeveral(s: seq<Contract>)
    requires DistinctContracts(s)
    ensures s == [] <==> !exists c :: c in s
    ensures |s| > 1 <==> exists c, e :: c != e && c in s && e in s
    ensures |s| == 1 ==> forall c :: c in s ==> c == s[0]
    ensures forall c, e :: c in s && e in s && c != e ==> c.id != e.id
  {
    if s != [] {
      assert s[0] in s;
    }
    if |s| > 1 {
      assert s[0] in s && s[1] in s && s[0] != s[1];
    }
  }

  /**
   Each decision, exactly when it is taken:
   no candidate, when no contract corresponds;
   over capacity, when the chronology is not missing and no corresponding contract has room;
   a human's, when the chronology is missing and the pairing matters, or when there is a choice that dates do not make;
   canonical, when the chronology is missing and any pairing serves;
   and otherwise a contract with room, earlier than every other that has room, called unique if no other corresponds.
   */
  lemma DecisionExactly(p: Pass, i: nat)
    requires p.WellFormed() && i < |p.subjects|
    ensures var d, s := p.DecisionAt(i), p.subjects[i];
            && (d.NoCandidate? <==> !exists c :: Corresponds(p, s, c))
            && (d.CapacityExceeded? <==>
                  && (exists c :: Corresponds(p, s, c)) && !ChronologyMissing(p, i)
                  && !exists c :: HasRoom(p, s, c, i))
            && (d.NeedsHuman? <==>
                  if ChronologyMissing(p, i) then !AnyPairingServes(p, i)
                  else
                    && (exists c, e :: c != e && HasRoom(p, s, c, i) && HasRoom(p, s, e, i))
                    && (s.date.None? || exists c :: HasRoom(p, s, c, i) && c.date.None?))
            && (d.Confirm? && d.basis.EquivalentCanonical? <==> ChronologyMissing(p, i) && AnyPairingServes(p, i))
            && (d.Confirm? && !d.basis.EquivalentCanonical? ==>
                  && HasRoom(p, s, d.contract, i)
                  && (forall e :: HasRoom(p, s, e, i) && e != d.contract ==> s.date.Some? && Earlier(d.contract, e))
                  && (d.basis.Unique? <==> !exists c, e :: c != e && Corresponds(p, s, c) && Corresponds(p, s, e)))
  {
    hide Cohort, Pool, Viable, Undefined, Interchangeable, Pass.After, Partner, Earlier, HasRoom, Corresponds,
      ChronologyMissing, AnyPairingServes, Earliest;
    MissingIsUndefined(p, i);
    PoolIs(p, i);
    if ChronologyMissing(p, i) {
      MissingHasCandidate(p, i);
      ServesIsInterchangeable(p, i);
    } else {
      OpenDecision(p, i);
    }
  }

  lemma MissingHasCandidate(p: Pass, i: nat)
    requires i < |p.subjects| && ChronologyMissing(p, i)
    ensures (exists c :: Corresponds(p, p.subjects[i], c)) && (exists j :: j != i && Competes(p, i, j))
  {
    hide Corresponds, Competes;
    var c :| HasRoom(p, p.subjects[i], c, 0);
  }

  /** A subject alone in its cohort is left to a human exactly when several corresponding contracts have room and it or
      one of them has no date. */
  lemma LoneSubject(p: Pass, i: nat)
    requires p.WellFormed() && i < |p.subjects| && !exists j :: j != i && Competes(p, i, j)
    ensures var s := p.subjects[i];
            p.DecisionAt(i).NeedsHuman? <==>
              && (exists c, e :: c != e && HasRoom(p, s, c, i) && HasRoom(p, s, e, i))
              && (s.date.None? || exists c :: HasRoom(p, s, c, i) && c.date.None?)
  {
    hide Competes, HasRoom, AnyPairingServes, Pass.DecisionAt;
    DecisionExactly(p, i);
  }

  // ---- The canonical pairing ----

  /** By number, and on one number by counterparty. */
  ghost predicate NumberBefore(c: Contract, d: Contract) {
    StringBefore(c.no, d.no) || (c.no == d.no && StringBefore(c.party.raw.GetOr(""), d.party.raw.GetOr("")))
  }

  lemma NumberBeforeIs(c: Contract, d: Contract)
    ensures Before(ContractIdentity(c), ContractIdentity(d)) <==> NumberBefore(c, d)
  {
    var a, b := ContractIdentity(c), ContractIdentity(d);
    assert a[1..] == [Text(c.party.raw.GetOr(""))] && b[1..] == [Text(d.party.raw.GetOr(""))];
    BeforeStep(a, b);
    BeforeStep(a[1..], b[1..]);
    NothingBefore(a[1..][1..], b[1..][1..]);
  }

  /** Of two members the one whose identity comes first gets the contract whose number comes first. */
  lemma PartnersInOrder(members: seq<Subject>, pool: seq<Contract>, s: Subject, t: Subject)
    requires Distinct(members) && |members| == |pool| && s in members && t in members
    requires forall x, y :: 0 <= x < y < |pool| ==> ContractIdentity(pool[x]) != ContractIdentity(pool[y])
    requires Before(IdentityKey(s), IdentityKey(t))
    ensures NumberBefore(Partner(s, members, pool), Partner(t, members, pool))
  {
    hide SortBy, IdentityKey, ContractIdentity, Before, NumberBefore;
    var om, op := SortBy(members, IdentityKey), SortBy(pool, ContractIdentity);
    assert s in multiset(om) && t in multiset(om);
    var x, y := Position(s, om), Position(t, om);
    SortByOrdered(members, IdentityKey);
    SortByOrdered(pool, ContractIdentity);
    BeforeStrict(IdentityKey(s), IdentityKey(t), []);
    BeforeStrict(IdentityKey(s), IdentityKey(s), []);
    assert x != y;
    assert x < y;
    SortedApart(pool, op, x, y);
    BeforeStrict(ContractIdentity(op[x]), ContractIdentity(op[y]), []);
    NumberBeforeIs(op[x], op[y]);
  }

  lemma SortedApart(pool: seq<Contract>, op: seq<Contract>, x: nat, y: nat)
    requires multiset(pool) == multiset(op) && x < y < |op|
    requires forall u, v :: 0 <= u < v < |pool| ==> ContractIdentity(pool[u]) != ContractIdentity(pool[v])
    ensures ContractIdentity(op[x]) != ContractIdentity(op[y])
  {
    hide ContractIdentity;
    forall u, v | 0 <= u < v < |pool|
      ensures pool[u] != pool[v]
    {
      assert ContractIdentity(pool[u]) != ContractIdentity(pool[v]);
    }
    DistinctPermutes(pool, op);
    assert op[x] in multiset(pool) && op[y] in multiset(pool);
    var u :| 0 <= u < |pool| && pool[u] == op[x];
    var v :| 0 <= v < |pool| && pool[v] == op[y];
    assert u != v;
  }
}
