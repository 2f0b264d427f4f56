/**
 Who takes part in a pass and in what order, what each decision leaves on record, and when a human's confirmation is
 accepted: all said of the stored rows.
 */
module MatchingRecords {
  import opened Options
  import opened Keys
  import opened Sequences
  import opened MatchingRules
  import opened MatchingTheorems
  import opened MatchingOutcomes
  import opened MatchingSystem
  import opened MatchingDecisions

  // ---- Who takes part ----

  /** A pass takes exactly the procurement subjects of its kind whose counterparty some contract has and that no case
      names. */
  lemma ParticipantsExactly(kind: Kind, w: World, s: Subject)
    requires DistinctContracts(w.contracts) && DistinctRefs(w.subjects)
    ensures s in PassOf(kind, w).subjects <==>
              && s in w.subjects && s.procurement && (if s.Invoice? then kind.InvoiceKind? else kind.PaymentKind?)
              && s.party.norm.Some? && (exists c :: c in w.contracts && c.party.norm == s.party.norm)
              && (forall c :: c in w.ledger.cases ==> c.subject != SubjectRef(kind, s.id))
  {
    hide PassOf, DistinctContracts, DistinctRefs;
    PassOfWellFormed(kind, w);
    EligibleMeans(s, w.contracts);
    CaseMeans(w.ledger.cases, s.Ref());
  }

  lemma EligibleMeans(s: Subject, contracts: seq<Contract>)
    ensures Eligible(s, contracts) <==>
              s.party.norm.Some? && exists c :: c in contracts && c.party.norm == s.party.norm
  {
    if c :| c in contracts && c.party.norm == s.party.norm {
      var i :| 0 <= i < |contracts| && contracts[i] == c;
    }
  }

  lemma CaseMeans(cases: seq<MatchCase>, ref: Ref)
    ensures HasCase(cases, ref) <==> exists c :: c in cases && c.subject == ref
  {
    if c :| c in cases && c.subject == ref {
      var i :| 0 <= i < |cases| && cases[i] == c;
    }
  }

  // ---- In what order ----

  /** The first of the three business keys that is more than white space. */
  function NameOf(s: Subject): Option<string>
    requires s.Invoice?
  {
    FirstUsableKey(s.externalKey, s.digitalNo, s.invoiceNo)
  }

  /** Dated before undated, earlier before later; then by business key or bank reference, and last by id. */
  ghost predicate ProcessedBefore(s: Subject, t: Subject)
    requires s.Kind() == t.Kind()
  {
    if s.date.Some? != t.date.Some? then s.date.Some?
    else if s.date != t.date then s.date.value < t.date.value
    else if s.Invoice? then
      var a, b := NameOf(s), NameOf(t);
      if a.Some? != b.Some? then a.Some? else if a != b then StringBefore(a.value, b.value) else s.id < t.id
    else
      var a, b := s.bankReference.GetOr(""), t.bankReference.GetOr("");
      if a != b then StringBefore(a, b) else s.id < t.id
  }

  /** Contracts are listed dated before undated, earlier before later, then by number and id. */
  ghost predicate ListedBefore(c: Contract, d: Contract) {
    if c.date.Some? != d.date.Some? then c.date.Some?
    else if c.date != d.date then c.date.value < d.date.value
    else if c.no != d.no then StringBefore(c.no, d.no)
    else c.id < d.id
  }

  lemma InvoiceNamed(s: Subject)
    requires s.Invoice?
    ensures Usable(s.externalKey) ==> NameOf(s) == s.externalKey
    ensures !Usable(s.externalKey) && Usable(s.digitalNo) ==> NameOf(s) == s.digitalNo
    ensures !Usable(s.externalKey) && !Usable(s.digitalNo) && Usable(s.invoiceNo) ==> NameOf(s) == s.invoiceNo
    ensures NameOf(s).Some? <==> Usable(s.externalKey) || Usable(s.digitalNo) || Usable(s.invoiceNo)
    ensures NameOf(s).Some? ==> Usable(NameOf(s))
  {
  }

  /** An invoice is identified by its name, a payment by account, date, direction, amount and reference together. */
  lemma IdentityTells(s: Subject, t: Subject)
    requires s.Kind() == t.Kind()
    ensures Identity(s).Some? <==>
              if s.Invoice? then NameOf(s).Some?
              else
                && s.account.Some? && s.account.value != "" && s.bankReference.Some? && s.bankReference.value != ""
                && s.date.Some?
    ensures Identity(s).Some? && Identity(t).Some? ==>
              (Identity(s) == Identity(t) <==>
                if s.Invoice? then NameOf(s) == NameOf(t)
                else
                  && s.account == t.account && s.date == t.date && s.procurement == t.procurement
                  && s.amount == t.amount && s.bankReference == t.bankReference)
  {
    if s.Payment? && Identity(s).Some? && Identity(t).Some? {
      var a, b := Identity(s).value, Identity(t).value;
      assert a[0] == Text(s.account.value) && b[0] == Text(t.account.value);
      assert a[1] == Num(s.date.value) && b[1] == Num(t.date.value);
      assert a[2] == Text(if s.procurement then "OUT" else "IN") && b[2] == Text(if t.procurement then "OUT" else "IN");
      assert "OUT"[0] != "IN"[0];
      assert a[3] == Num(s.amount) && b[3] == Num(t.amount);
      assert a[4] == Text(s.bankReference.value) && b[4] == Text(t.bankReference.value);
    }
    if s.Invoice? && Identity(s).Some? && Identity(t).Some? {
      assert Identity(s).value[0] == Text(NameOf(s).value) && Identity(t).value[0] == Text(NameOf(t).value);
    }
  }

  lemma ContractOrderMeans(c: Contract, d: Contract)
    requires Before(ContractOrder(c), ContractOrder(d))
    ensures ListedBefore(c, d)
  {
    var a, b := ContractOrder(c), ContractOrder(d);
    assert a[1..][1..] == [Text(c.no), Num(c.id)] && b[1..][1..] == [Text(d.no), Num(d.id)];
    assert a[1..][1..][1..] == [Num(c.id)] && b[1..][1..][1..] == [Num(d.id)];
    BeforeStep(a, b);
    BeforeStep(a[1..], b[1..]);
    BeforeStep(a[1..][1..], b[1..][1..]);
    BeforeStep([Num(c.id)], [Num(d.id)]);
    NothingBefore([Num(c.id)][1..], [Num(d.id)][1..]);
    StringBeforeStrict(c.no, d.no, "");
  }

  lemma InvoiceOrderMeans(s: Subject, t: Subject)
    requires s.Invoice? && t.Invoice? && Before(SubjectOrder(s), SubjectOrder(t))
    ensures ProcessedBefore(s, t)
  {
    hide FirstUsableKey;
    var a, b := SubjectOrder(s), SubjectOrder(t);
    var x, y := NameOf(s), NameOf(t);
    var u, v := [Text(x.GetOr("")), Num(s.id)], [Text(y.GetOr("")), Num(t.id)];
    assert a[1..][1..] == [Num(if x.Some? then 0 else 1)] + u && b[1..][1..] == [Num(if y.Some? then 0 else 1)] + v;
    assert a[1..][1..][1..] == u && b[1..][1..][1..] == v;
    assert u[1..] == [Num(s.id)] && v[1..] == [Num(t.id)];
    BeforeStep(a, b);
    BeforeStep(a[1..], b[1..]);
    BeforeStep(a[1..][1..], b[1..][1..]);
    BeforeStep(u, v);
    BeforeStep([Num(s.id)], [Num(t.id)]);
    NothingBefore([Num(s.id)][1..], [Num(t.id)][1..]);
    StringBeforeStrict(x.GetOr(""), y.GetOr(""), "");
  }

  lemma PaymentOrderMeans(s: Subject, t: Subject)
    requires s.Payment? && t.Payment? && Before(SubjectOrder(s), SubjectOrder(t))
    ensures ProcessedBefore(s, t)
  {
    var a, b := SubjectOrder(s), SubjectOrder(t);
    var x, y := s.bankReference.GetOr(""), t.bankReference.GetOr("");
    assert a[1..][1..] == [Text(x), Num(s.id)] && b[1..][1..] == [Text(y), Num(t.id)];
    assert a[1..][1..][1..] == [Num(s.id)] && b[1..][1..][1..] == [Num(t.id)];
    BeforeStep(a, b);
    BeforeStep(a[1..], b[1..]);
    BeforeStep(a[1..][1..], b[1..][1..]);
    BeforeStep([Num(s.id)], [Num(t.id)]);
    NothingBefore([Num(s.id)][1..], [Num(t.id)][1..]);
    StringBeforeStrict(x, y, "");
  }

  lemma {:induction false} KeepOrdered(s: seq<Subject>, f: Subject -> bool)
    requires Ordered(s, SubjectOrder)
    ensures Ordered(Keep(s, f), SubjectOrder)
  {
    hide Before, SubjectOrder;
    if s == [] {
    } else {
      var front, last := s[..|s| - 1], s[|s| - 1];
      KeepOrdered(front, f);
      forall x | x in Keep(front, f)
        ensures !Before(SubjectOrder(last), SubjectOrder(x))
      {
        var i :| 0 <= i < |front| && front[i] == x;
        assert s[i] == x && s[|s| - 1] == last;
      }
    }
  }

  /** The subjects of a pass are decided in business order, and its contracts listed in theirs. */
  lemma ProcessingOrder(kind: Kind, w: World, i: nat, j: nat)
    requires DistinctContracts(w.contracts) && DistinctRefs(w.subjects)
    ensures i < j < |PassOf(kind, w).subjects| ==>
              && PassOf(kind, w).subjects[i].Kind() == PassOf(kind, w).subjects[j].Kind() == kind
              && ProcessedBefore(PassOf(kind, w).subjects[i], PassOf(kind, w).subjects[j])
    ensures i < j < |PassOf(kind, w).contracts| ==>
              ListedBefore(PassOf(kind, w).contracts[i], PassOf(kind, w).contracts[j])
  {
    hide Before, SubjectOrder, ContractOrder, SortBy, Eligible, HasCase, ProcessedBefore, ListedBefore;
    PassOfWellFormed(kind, w);
    var p := PassOf(kind, w);
    var listing := Listing(kind, w.subjects);
    SortByOrdered(Keep(w.subjects, (s: Subject) => s.Kind() == kind && s.procurement), SubjectOrder);
    KeepOrdered(listing, (s: Subject) => Eligible(s, p.contracts));
    KeepOrdered(EligibleOf(listing, p.contracts), (s: Subject) => !HasCase(w.ledger.cases, s.Ref()));
    if i < j < |p.subjects| {
      SubjectsApart(p.subjects[i], p.subjects[j]);
    }
    if i < j < |p.contracts| {
      ContractsApart(p.contracts[i], p.contracts[j]);
    }
  }

  lemma SubjectsApart(s: Subject, t: Subject)
    requires s.Kind() == t.Kind() && s.id != t.id && !Before(SubjectOrder(t), SubjectOrder(s))
    ensures ProcessedBefore(s, t)
  {
    hide Before, ProcessedBefore;
    var last := |SubjectOrder(s)| - 1;
    assert SubjectOrder(s)[last] == Num(s.id) && SubjectOrder(t)[last] == Num(t.id);
    BeforeStrict(SubjectOrder(s), SubjectOrder(t), []);
    if s.Invoice? {
      InvoiceOrderMeans(s, t);
    } else {
      PaymentOrderMeans(s, t);
    }
  }

  lemma ContractsApart(c: Contract, d: Contract)
    requires c.id != d.id && !Before(ContractOrder(d), ContractOrder(c))
    ensures ListedBefore(c, d)
  {
    hide Before, ListedBefore;
    assert ContractOrder(c)[3] == Num(c.id) && ContractOrder(d)[3] == Num(d.id);
    BeforeStrict(ContractOrder(c), ContractOrder(d), []);
    ContractOrderMeans(c, d);
  }

  // ---- What a decision leaves on record ----

  /** The first corresponding contract in the pass's listing. */
  ghost predicate FirstListed(p: Pass, i: nat, c: Contract)
    requires i < |p.subjects|
  {
    p.PoolAt(i) != [] && c == p.PoolAt(i)[0]
  }

  /** What is on record of the subject at i in a ledger. */
  ghost predicate OnRecord(p: Pass, i: nat, w: Ledger)
    requires i < |p.subjects|
  {
    var s, d, id := p.subjects[i], p.DecisionAt(i), |p.base.cases| + i;
    && id < |w.cases| && w.cases[id].subject == SubjectRef(p.kind, s.id)
    && (w.cases[id].status.AutoConfirmed? <==> d.Confirm?)
    && (w.cases[id].status.Unmatched? <==> d.NoCandidate?)
    && (w.cases[id].status.HumanConfirmationRequired? <==> d.NeedsHuman? || d.CapacityExceeded?)
    && (d.Confirm? ==>
          && Allocation(SubjectRef(p.kind, s.id), d.contract.id, id, s.amount, d.basis, false) in w.allocations
          && MatchAutoConfirmed(SubjectRef(p.kind, s.id), d.contract.id, s.amount) in w.events)
    && (d.NeedsHuman? ==> HumanConfirmationNeeded(SubjectRef(p.kind, s.id), Ids(p.PoolAt(i))) in w.events)
    && (d.CapacityExceeded? ==> exists c ::
          && FirstListed(p, i, c)
          && CapacityExceededEvent(SubjectRef(p.kind, s.id), c.id) in w.events
          && CapacityTask(SubjectRef(p.kind, s.id), c.id, Confirmed(p.After(i).allocations, p.kind, c.id), s.amount,
                          c.gross) in w.tasks)
  }

  lemma WriteRecords(p: Pass, i: nat)
    requires p.WellFormed() && i < |p.subjects|
    ensures |p.After(i).cases| == |p.base.cases| + i && OnRecord(p, i, p.After(i + 1))
  {
    hide Pass.DecisionAt, Pool, Confirmed;
    PassEvolves(p, i);
    var s, d := p.subjects[i], p.DecisionAt(i);
    assert s.Kind() == p.kind;
    assert p.After(i + 1) == Write(p.After(i), s, p.PoolAt(i), d);
    if d.CapacityExceeded? {
      assert FirstListed(p, i, p.PoolAt(i)[0]);
    }
  }

  lemma RecordStays(p: Pass, i: nat, n: nat)
    requires i < |p.subjects| && n < |p.subjects| && OnRecord(p, i, p.After(n))
    ensures OnRecord(p, i, p.After(n + 1))
  {
    hide Pass.DecisionAt, Pool, Confirmed, FirstListed;
    assert p.After(n + 1) == Write(p.After(n), p.subjects[n], p.PoolAt(n), p.DecisionAt(n));
  }

  /** To the end of the pass each subject's case stands with its status, and with the allocation, task or event that its
      decision calls for. */
  lemma {:induction false} EveryDecisionOnRecord(p: Pass, i: nat, n: nat)
    requires p.WellFormed() && i < n <= |p.subjects|
    ensures OnRecord(p, i, p.After(n))
    decreases n
  {
    hide OnRecord, Pass.After;
    if n == i + 1 {
      WriteRecords(p, i);
    } else {
      EveryDecisionOnRecord(p, i, n - 1);
      RecordStays(p, i, n - 1);
    }
  }

  /** Among the corresponding contracts none is listed before the first. */
  lemma FirstListedIsFirst(kind: Kind, w: World, i: nat, c: Contract, d: Contract)
    requires DistinctContracts(w.contracts) && DistinctRefs(w.subjects)
    requires i < |PassOf(kind, w).subjects| && FirstListed(PassOf(kind, w), i, c)
    requires Corresponds(PassOf(kind, w), PassOf(kind, w).subjects[i], d) && d != c
    ensures ListedBefore(c, d)
  {
    hide PassOf, ListedBefore, Pool, Before, ContractOrder;
    var p := PassOf(kind, w);
    PassOfWellFormed(kind, w);
    PoolIs(p, i);
    PoolOrdered(KeyOf(p.subjects[i]), p.contracts);
    DistinctPool(KeyOf(p.subjects[i]), p.contracts);
    var pool := p.PoolAt(i);
    var j :| 0 <= j < |pool| && pool[j] == d;
    ContractsApart(pool[0], pool[j]);
  }

  // ---- The counters ----

  function Places(p: Pass, n: nat, f: Decision -> bool): set<nat>
    requires n <= |p.subjects|
  {
    set i: nat | i < n && f(p.DecisionAt(i)) :: i
  }

  lemma NextPlace(p: Pass, n: nat, f: Decision -> bool)
    requires n < |p.subjects|
    ensures |Places(p, n + 1, f)| == |Places(p, n, f)| + (if f(p.DecisionAt(n)) then 1 else 0)
  {
    hide Pass.DecisionAt;
    assert Places(p, n + 1, f) == Places(p, n, f) + (if f(p.DecisionAt(n)) then {n} else {});
  }

  /** Each counter is the number of subjects so decided, and the listed ids are theirs in order. */
  lemma {:induction false} CountersCount(p: Pass, n: nat, t: Summary)
    requires n <= |p.subjects|
    ensures var u := Tally(p, n, t);
            && u.autoConfirmed == t.autoConfirmed + |Places(p, n, (d: Decision) => d.Confirm?)|
            && u.humanRequired == t.humanRequired + |Places(p, n, (d: Decision) => d.NeedsHuman?)|
            && u.unmatched == t.unmatched + |Places(p, n, (d: Decision) => d.NoCandidate?)|
            && u.capacityExceeded == t.capacityExceeded + |Places(p, n, (d: Decision) => d.CapacityExceeded?)|
            && u.ids == t.ids + seq(n, i requires 0 <= i < n => p.subjects[i].id)
  {
    hide Pass.DecisionAt, Places;
    if n == 0 {
      NoPlaces(p);
    } else {
      CountersCount(p, n - 1, t);
      NextPlace(p, n - 1, (d: Decision) => d.Confirm?);
      NextPlace(p, n - 1, (d: Decision) => d.NeedsHuman?);
      NextPlace(p, n - 1, (d: Decision) => d.NoCandidate?);
      NextPlace(p, n - 1, (d: Decision) => d.CapacityExceeded?);
    }
  }

  lemma NoPlaces(p: Pass)
    ensures forall f :: Places(p, 0, f) == {}
  {
  }

  // ---- Human confirmation ----

  /** The case waits for a human, its subject is a stored procurement row, the contract is stored and has room. */
  ghost predicate Acceptable(w: World, caseId: nat, contract: nat, s: Subject, c: Contract) {
    && caseId < |w.ledger.cases| && w.ledger.cases[caseId].status.HumanConfirmationRequired?
    && s in w.subjects && w.ledger.cases[caseId].subject == s.Ref() && s.procurement
    && c in w.contracts && c.id == contract
    && Confirmed(w.ledger.allocations, s.Kind(), contract) + s.amount <= c.gross
  }

  /** A confirmation is accepted exactly when it is acceptable.  It resolves that case and no other, and adds one
      allocation, of the subject's whole amount, to that contract. */
  lemma ConfirmedExactly(w: World, caseId: nat, contract: nat)
    requires Inv(w)
    ensures ConfirmMatch(w, caseId, contract).Done? <==> exists s, c :: Acceptable(w, caseId, contract, s, c)
    ensures forall s, c :: Acceptable(w, caseId, contract, s, c) ==>
              var next := ConfirmMatch(w, caseId, contract).world;
              && next.contracts == w.contracts && next.subjects == w.subjects
              && next.ledger.cases == w.ledger.cases[caseId := MatchCase(s.Ref(), Resolved)]
              && next.ledger.allocations
                   == w.ledger.allocations + [Allocation(s.Ref(), contract, caseId, s.amount, Unique, true)]
              && next.ledger.candidates == w.ledger.candidates && next.ledger.tasks == w.ledger.tasks
              && next.ledger.events == w.ledger.events + [MatchHumanConfirmed(caseId, contract)]
  {
    hide Confirmed, CasesSound, AllocationsSound, OnePerSettledCase, Within;
    var done := ConfirmMatch(w, caseId, contract);
    if done.Done? {
      var s := FindSubject(w.subjects, w.ledger.cases[caseId].subject).value;
      var c := FindContract(w.contracts, contract).value;
      assert Acceptable(w, caseId, contract, s, c);
    }
    forall s, c | Acceptable(w, caseId, contract, s, c)
      ensures FindSubject(w.subjects, w.ledger.cases[caseId].subject) == Some(s)
      ensures FindContract(w.contracts, contract) == Some(c)
    {
      FindsTheOne(w, s, c);
    }
  }

  /** And otherwise it is refused for the first of these reasons that holds; nothing else happens. */
  lemma RefusedExactly(w: World, caseId: nat, contract: nat)
    requires Inv(w) && caseId < |w.ledger.cases| && w.ledger.cases[caseId].status.HumanConfirmationRequired?
    ensures var r := ConfirmMatch(w, caseId, contract);
            && (r == Refused(ContractNotFound) <==> forall c :: c in w.contracts ==> c.id != contract)
            && (r == Refused(WrongDirection) <==>
                  && (exists c :: c in w.contracts && c.id == contract)
                  && exists s :: s in w.subjects && s.Ref() == w.ledger.cases[caseId].subject && !s.procurement)
            && (r == Refused(OverCapacity) <==> exists s, c ::
                  && s in w.subjects && s.Ref() == w.ledger.cases[caseId].subject && s.procurement
                  && c in w.contracts && c.id == contract
                  && Confirmed(w.ledger.allocations, s.Kind(), contract) + s.amount > c.gross)
  {
    hide Confirmed, AllocationsSound, OnePerSettledCase, Within;
    assert Known(w.subjects, w.ledger.cases[caseId].subject);
    var s :| s in w.subjects && s.Ref() == w.ledger.cases[caseId].subject;
    if c :| c in w.contracts && c.id == contract {
      FindsTheOne(w, s, c);
      forall t, d | t in w.subjects && t.Ref() == s.Ref() && d in w.contracts && d.id == contract
        ensures t == s && d == c
      {
        FindsTheOne(w, t, d);
      }
    }
  }

  lemma NotPendingRefused(w: World, caseId: nat, contract: nat)
    ensures caseId >= |w.ledger.cases| <==> ConfirmMatch(w, caseId, contract) == Refused(CaseNotFound)
    ensures ConfirmMatch(w, caseId, contract) == Refused(NotPending) <==>
              caseId < |w.ledger.cases| && !w.ledger.cases[caseId].status.HumanConfirmationRequired?
  {
  }

  lemma FindsTheOne(w: World, s: Subject, c: Contract)
    requires DistinctContracts(w.contracts) && DistinctRefs(w.subjects) && s in w.subjects && c in w.contracts
    ensures FindSubject(w.subjects, s.Ref()) == Some(s) && FindContract(w.contracts, c.id) == Some(c)
  {
    var t, d := FindSubject(w.subjects, s.Ref()).value, FindContract(w.contracts, c.id).value;
    assert t in w.subjects && t.Ref() == s.Ref();
    assert d in w.contracts && d.id == c.id;
  }

  /** In particular whoever a pass leaves to a human can be confirmed on any corresponding contract that has room
      afterwards, be it for this one subject only. */
  lemma LeftToHumanCanBeConfirmed(kind: Kind, w: World, i: nat, c: Contract)
    requires Inv(w) && i < |PassOf(kind, w).subjects| && PassOf(kind, w).DecisionAt(i).NeedsHuman?
    requires var p := PassOf(kind, w); HasRoom(p, p.subjects[i], c, |p.subjects|)
    ensures ConfirmMatch(MatchAll(kind, w), |w.ledger.cases| + i, c.id).Done?
  {
    hide PassOf, Pass.DecisionAt, Confirmed, Inv, ConfirmMatch, Pass.After, FirstListed;
    var p := PassOf(kind, w);
    var next := MatchAll(kind, w);
    InvDistinct(w);
    PassOfWellFormed(kind, w);
    PassOfBase(kind, w);
    MatchKeepsInv(w, kind);
    EveryDecisionOnRecord(p, i, |p.subjects|);
    assert Participates(kind, w, p.subjects[i]);
    assert Acceptable(next, |w.ledger.cases| + i, c.id, p.subjects[i], c);
    ConfirmedExactly(next, |w.ledger.cases| + i, c.id);
  }

  /** So is every member of a blocked cohort, on any corresponding contract with exactly its amount left: the pass took
      nothing from it. */
  lemma BlockedCanBeConfirmed(kind: Kind, w: World, i: nat, c: Contract)
    requires Inv(w) && i < |PassOf(kind, w).subjects|
    requires var p := PassOf(kind, w);
             && ChronologyMissing(p, i) && !AnyPairingServes(p, i) && Corresponds(p, p.subjects[i], c)
             && Confirmed(w.ledger.allocations, kind, c.id) + p.subjects[i].amount == c.gross
    ensures ConfirmMatch(MatchAll(kind, w), |w.ledger.cases| + i, c.id).Done?
  {
    hide PassOf, Pass.DecisionAt, Confirmed, Inv, ConfirmMatch, Pass.After, AnyPairingServes, ChronologyMissing,
      Corresponds, Undefined, Interchangeable;
    var p := PassOf(kind, w);
    InvDistinct(w);
    PassOfWellFormed(kind, w);
    PassOfBase(kind, w);
    DecisionExactly(p, i);
    MissingHasCandidate(p, i);
    MissingIsUndefined(p, i);
    ServesIsInterchangeable(p, i);
    PoolIs(p, i);
    UndefinedAndBlocked(p, KeyOf(p.subjects[i]));
    LeftToHumanCanBeConfirmed(kind, w, i, c);
  }
}
