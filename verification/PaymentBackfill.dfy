/** Backfilling payments from bank rows: one fragment a row, identities kept unique, unresolved rows kept as tasks. */
module PaymentBackfill {
  import opened Options
  import opened Sequences

  type Locator = (nat, nat)

  /** A parsed bank row; `party` is the counterparty normalized, `spelled` the amount as it prints. */
  datatype Row = Row(
    locator: Locator, date: int, signed: int, spelled: string, counterparty: Option<string>, party: Option<string>,
    business: Option<string>, reference: Option<string>, description: Option<string>)

  datatype Direction = In | Out

  datatype Identity = Identity(account: string, date: int, direction: Direction, amount: nat, reference: string)

  datatype Payment = Payment(
    identity: Identity, counterparty: Option<string>, business: Option<string>, description: Option<string>,
    fragment: nat)

  datatype Kind = IdentityIncomplete | IdentityAmbiguous | Conflict

  datatype Task = Task(kind: Kind, key: string, open: bool)

  /** What an identity key is made of; `full` when account and reference are both there. */
  datatype KeyParts = KeyParts(
    full: bool, account: Option<string>, date: int, direction: Direction, spelled: string, reference: Option<string>,
    index: nat)

  /**
   The surroundings of a run: the account, the parties of the procurement contracts (none when there is no contract),
   the rows put out of scope, and how a key is written out.
   */
  datatype Setting = Setting(
    account: Option<string>, parties: Option<set<string>>, decided: set<Locator>, render: KeyParts -> string)

  datatype State = State(fragments: seq<Locator>, payments: seq<Payment>, tasks: seq<Task>)

  predicate Missing(s: Option<string>) { s.None? || s.value == "" }

  function DirectionOf(row: Row): Direction { if row.signed >= 0 then In else Out }

  function AmountOf(row: Row): nat { if row.signed >= 0 then row.signed else -row.signed }

  /** A payment out to a named party that no contract has. */
  predicate OutOfScope(g: Setting, row: Row) {
    DirectionOf(row).Out? && g.parties.Some? && !Missing(row.party) && row.party.value !in g.parties.value
  }

  predicate Incomplete(g: Setting, row: Row) { Missing(g.account) || Missing(row.reference) }

  function IdentityOf(g: Setting, row: Row): Identity
    requires !Incomplete(g, row)
  {
    Identity(g.account.value, row.date, DirectionOf(row), AmountOf(row), row.reference.value)
  }

  function KeyOf(g: Setting, row: Row, full: bool): string {
    g.render(KeyParts(full, g.account, row.date, DirectionOf(row), row.spelled, row.reference,
                      if full then 0 else row.locator.1))
  }

  function Matches(payments: seq<Payment>, id: Identity): seq<Payment> {
    Keep(payments, (p: Payment) => p.identity == id)
  }

  predicate SameContent(p: Payment, row: Row) {
    p.counterparty == row.counterparty && p.business == row.business && p.description == row.description
  }

  predicate IsOpen(tasks: seq<Task>, kind: Kind, key: string) { Task(kind, key, true) in tasks }

  // ---- What becomes of a row ----

  datatype Disposition = Excluded | Created | Replayed | Raised(kind: Kind)

  function DispositionOf(g: Setting, s: State, row: Row): Disposition {
    if OutOfScope(g, row) || row.locator in g.decided then Excluded
    else if Incomplete(g, row) then Raised(IdentityIncomplete)
    else
      var matches := Matches(s.payments, IdentityOf(g, row));
      if |matches| > 1 then Raised(IdentityAmbiguous)
      else if |matches| == 1 then (if SameContent(matches[0], row) then Replayed else Raised(Conflict))
      else Created
  }

  function WithTask(tasks: seq<Task>, kind: Kind, key: string): seq<Task> {
    if IsOpen(tasks, kind, key) then tasks else tasks + [Task(kind, key, true)]
  }

  function Step(g: Setting, s: State, row: Row): State {
    var kept := s.(fragments := s.fragments + [row.locator]);
    match DispositionOf(g, s, row)
    case Excluded => kept
    case Replayed => kept
    case Raised(kind) => kept.(tasks := WithTask(s.tasks, kind, KeyOf(g, row, !kind.IdentityIncomplete?)))
    case Created =>
      kept.(payments := s.payments
            + [Payment(IdentityOf(g, row), row.counterparty, row.business, row.description, |s.fragments|)])
  }

  function Steps(g: Setting, s: State, rows: seq<Row>): State {
    if rows == [] then s else Step(g, Steps(g, s, rows[..|rows| - 1]), rows[|rows| - 1])
  }

  // ---- Identities ----

  lemma MatchesNext(payments: seq<Payment>, p: Payment, id: Identity)
    ensures Matches(payments + [p], id) == Matches(payments, id) + (if p.identity == id then [p] else [])
  {
    assert (payments + [p])[..|payments|] == payments;
  }

  /** A run adds a payment only under an identity that has none, so it never makes one ambiguous. */
  lemma {:induction false} IdentitiesStayUnique(g: Setting, s: State, rows: seq<Row>, id: Identity)
    ensures var before, after := Matches(s.payments, id), Matches(Steps(g, s, rows).payments, id);
            |after| == |before| || (|before| == 0 && |after| == 1)
  {
    if rows == [] {
    } else {
      hide Matches, OutOfScope, Incomplete, WithTask;
      var t, row := Steps(g, s, rows[..|rows| - 1]), rows[|rows| - 1];
      IdentitiesStayUnique(g, s, rows[..|rows| - 1], id);
      if DispositionOf(g, t, row).Created? {
        var p := Payment(IdentityOf(g, row), row.counterparty, row.business, row.description, |t.fragments|);
        MatchesNext(t.payments, p, id);
      }
    }
  }

  // ---- Every row leaves a fragment and one outcome ----

  datatype Tally = Tally(excluded: nat, created: nat, replayed: nat, raised: nat)

  function TallyOf(g: Setting, s: State, rows: seq<Row>): Tally {
    if rows == [] then Tally(0, 0, 0, 0)
    else
      var t := TallyOf(g, s, rows[..|rows| - 1]);
      match DispositionOf(g, Steps(g, s, rows[..|rows| - 1]), rows[|rows| - 1])
      case Excluded => t.(excluded := t.excluded + 1)
      case Created => t.(created := t.created + 1)
      case Replayed => t.(replayed := t.replayed + 1)
      case Raised(_) => t.(raised := t.raised + 1)
  }

  lemma StepAccountsForRow(g: Setting, s: State, row: Row)
    ensures var d, after := DispositionOf(g, s, row), Step(g, s, row);
            && after.fragments == s.fragments + [row.locator]
            && s.payments <= after.payments && |after.payments| == |s.payments| + (if d.Created? then 1 else 0)
            && s.tasks <= after.tasks && |after.tasks| <= |s.tasks| + (if d.Raised? then 1 else 0)
  {
    hide DispositionOf, KeyOf;
  }

  lemma {:induction false} EveryRowAccountedFor(g: Setting, s: State, rows: seq<Row>)
    ensures var t, after := TallyOf(g, s, rows), Steps(g, s, rows);
            && after.fragments == s.fragments + Map(rows, (r: Row) => r.locator)
            && t.excluded + t.created + t.replayed + t.raised == |rows|
            && |after.payments| == |s.payments| + t.created
            && s.payments <= after.payments && s.tasks <= after.tasks
            && |after.tasks| <= |s.tasks| + t.raised
  {
    if rows == [] {
    } else {
      hide DispositionOf, Step;
      var front, last := rows[..|rows| - 1], rows[|rows| - 1];
      EveryRowAccountedFor(g, s, front);
      StepAccountsForRow(g, Steps(g, s, front), last);
      assert Map(rows, (r: Row) => r.locator) == Map(front, (r: Row) => r.locator) + [last.locator];
    }
  }

  // ---- Running the same rows again ----

  /** What a row left behind that makes it change nothing when met again. */
  ghost predicate Settled(g: Setting, s: State, row: Row) {
    || OutOfScope(g, row) || row.locator in g.decided
    || (Incomplete(g, row) && IsOpen(s.tasks, IdentityIncomplete, KeyOf(g, row, false)))
    || (!Incomplete(g, row)
        && var matches := Matches(s.payments, IdentityOf(g, row));
           || (|matches| > 1 && IsOpen(s.tasks, IdentityAmbiguous, KeyOf(g, row, true)))
           || (|matches| == 1 && (SameContent(matches[0], row) || IsOpen(s.tasks, Conflict, KeyOf(g, row, true)))))
  }

  lemma StepSettles(g: Setting, s: State, row: Row)
    ensures Settled(g, Step(g, s, row), row)
  {
    hide Matches;
    if DispositionOf(g, s, row).Created? {
      var p := Payment(IdentityOf(g, row), row.counterparty, row.business, row.description, |s.fragments|);
      MatchesNext(s.payments, p, IdentityOf(g, row));
      assert Matches(s.payments, IdentityOf(g, row)) == [];
    }
  }

  lemma SettledStays(g: Setting, s: State, row: Row, other: Row)
    requires Settled(g, s, row)
    ensures Settled(g, Step(g, s, other), row)
  {
    hide Matches, OutOfScope;
    if DispositionOf(g, s, other).Created? && !Incomplete(g, row) {
      var p := Payment(IdentityOf(g, other), other.counterparty, other.business, other.description, |s.fragments|);
      MatchesNext(s.payments, p, IdentityOf(g, row));
    }
  }

  lemma {:induction false} RunSettles(g: Setting, s: State, rows: seq<Row>)
    ensures forall row :: row in rows ==> Settled(g, Steps(g, s, rows), row)
  {
    if rows == [] {
    } else {
      hide Settled, Step;
      var front, last := rows[..|rows| - 1], rows[|rows| - 1];
      assert rows == front + [last];
      RunSettles(g, s, front);
      StepSettles(g, Steps(g, s, front), last);
      forall row | row in front
        ensures Settled(g, Steps(g, s, rows), row)
      {
        SettledStays(g, Steps(g, s, front), row, last);
      }
    }
  }

  /** A settled row adds its fragment and nothing else. */
  lemma SettledAddsNothing(g: Setting, s: State, row: Row)
    requires Settled(g, s, row)
    ensures Step(g, s, row) == s.(fragments := s.fragments + [row.locator])
    ensures !DispositionOf(g, s, row).Created?
  {
    hide Matches;
  }

  /** In any state where every row is settled, running the rows again creates no payment and no task. */
  lemma {:induction false} SettledRowsAddNothing(g: Setting, s: State, rows: seq<Row>)
    requires forall row :: row in rows ==> Settled(g, s, row)
    ensures Steps(g, s, rows).payments == s.payments && Steps(g, s, rows).tasks == s.tasks
    ensures TallyOf(g, s, rows).created == 0
  {
    if rows == [] {
    } else {
      hide Settled, Step, DispositionOf;
      var front, last := rows[..|rows| - 1], rows[|rows| - 1];
      assert rows == front + [last];
      SettledRowsAddNothing(g, s, front);
      SettledIgnoresFragments(g, s, Steps(g, s, front), last);
      SettledAddsNothing(g, Steps(g, s, front), last);
    }
  }

  lemma SettledIgnoresFragments(g: Setting, s: State, t: State, row: Row)
    requires Settled(g, s, row) && s.payments == t.payments && s.tasks == t.tasks
    ensures Settled(g, t, row)
  {
    hide Matches, OutOfScope;
  }

  /** The second run over the same rows creates no payment and no new open task. */
  lemma RerunIsIdle(g: Setting, s: State, rows: seq<Row>)
    ensures var once := Steps(g, s, rows); var twice := Steps(g, once, rows);
            twice.payments == once.payments && twice.tasks == once.tasks && TallyOf(g, once, rows).created == 0
  {
    hide Settled, Steps, TallyOf;
    RunSettles(g, s, rows);
    SettledRowsAddNothing(g, Steps(g, s, rows), rows);
  }

  // ---- Which payments a run adds ----

  /** The row counts: no decision puts it out of scope, and, if it pays out, its party is none or one that some contract
      has, or there is no contract. */
  ghost predicate Counts(g: Setting, row: Row) {
    && row.locator !in g.decided
    && (row.signed >= 0 || g.parties.None? || row.party.None? || row.party.value == ""
        || row.party.value in g.parties.value)
  }

  /** The row counts, and account, date, direction, amount and reference are those of the identity, none missing. */
  ghost predicate Bears(g: Setting, row: Row, id: Identity) {
    && Counts(g, row)
    && g.account == Some(id.account) && id.account != "" && row.reference == Some(id.reference) && id.reference != ""
    && row.date == id.date && (id.direction.In? <==> row.signed >= 0)
    && id.amount == (if row.signed >= 0 then row.signed else -row.signed)
  }

  lemma BearsItsIdentity(g: Setting, row: Row, id: Identity)
    ensures Bears(g, row, id) <==>
              !OutOfScope(g, row) && row.locator !in g.decided && !Incomplete(g, row) && IdentityOf(g, row) == id
  {
  }

  /** A row that does not count is excluded; one without account or reference is kept as a task; any other bears an
      identity. */
  lemma NamelessExactly(g: Setting, s: State, row: Row)
    ensures var d := DispositionOf(g, s, row);
            var nameless := g.account.None? || g.account.value == "" || row.reference.None?
              || row.reference.value == "";
            && (d.Excluded? <==> !Counts(g, row))
            && (d == Raised(IdentityIncomplete) <==> Counts(g, row) && nameless)
            && (Counts(g, row) && !nameless <==> exists id :: Bears(g, row, id))
  {
    hide Matches;
    if !Incomplete(g, row) {
      BearsItsIdentity(g, row, IdentityOf(g, row));
    }
  }

  /** And what becomes of that one turns on the payments on record under its identity. */
  lemma DispositionExactly(g: Setting, s: State, row: Row, id: Identity)
    requires Bears(g, row, id)
    ensures var d := DispositionOf(g, s, row);
            && (d.Created? <==> forall p :: p in s.payments ==> p.identity != id)
            && (d == Raised(IdentityAmbiguous) <==> |Matches(s.payments, id)| > 1)
            && (|Matches(s.payments, id)| == 1 ==>
                  var p := Matches(s.payments, id)[0];
                  && p in s.payments && p.identity == id
                  && d == if p.counterparty == row.counterparty && p.business == row.business
                             && p.description == row.description then Replayed else Raised(Conflict))
  {
    hide Matches, Bears, OutOfScope, Incomplete;
    BearsItsIdentity(g, row, id);
    MatchesMean(s.payments, id);
  }

  /** Where different parts read differently, rows without an identity share a task only if they agree in all that is
      there and in their place; rows with one, exactly if the key's parts agree. */
  lemma TaskKeysTell(g: Setting, a: Row, b: Row, full: bool)
    requires var x := KeyParts(full, g.account, a.date, DirectionOf(a), a.spelled, a.reference,
                               if full then 0 else a.locator.1);
             var y := KeyParts(full, g.account, b.date, DirectionOf(b), b.spelled, b.reference,
                               if full then 0 else b.locator.1);
             g.render(x) == g.render(y) ==> x == y
    ensures KeyOf(g, a, full) == KeyOf(g, b, full) <==>
              && a.date == b.date && (a.signed >= 0 <==> b.signed >= 0) && a.spelled == b.spelled
              && a.reference == b.reference && (full || a.locator.1 == b.locator.1)
  {
  }

  lemma MatchesMean(payments: seq<Payment>, id: Identity)
    ensures Matches(payments, id) == [] <==> forall p :: p in payments ==> p.identity != id
    ensures forall p :: p in Matches(payments, id) ==> p in payments && p.identity == id
  {
    var m := Matches(payments, id);
    if m != [] {
      assert m[0] in m;
    }
    if p :| p in payments && p.identity == id {
      assert p in m;
    }
  }

  lemma StepPays(g: Setting, s: State, row: Row, id: Identity)
    ensures Matches(Step(g, s, row).payments, id) != [] <==> Matches(s.payments, id) != [] || Bears(g, row, id)
  {
    hide Matches, OutOfScope, Incomplete, WithTask, KeyOf, Bears;
    BearsItsIdentity(g, row, id);
    if DispositionOf(g, s, row).Created? {
      var p := Payment(IdentityOf(g, row), row.counterparty, row.business, row.description, |s.fragments|);
      MatchesNext(s.payments, p, id);
    }
  }

  /** After a run an identity has a payment exactly when it had one before or some row bears it. */
  lemma {:induction false} PaidExactly(g: Setting, s: State, rows: seq<Row>, id: Identity)
    ensures Matches(Steps(g, s, rows).payments, id) != []
       <==> Matches(s.payments, id) != [] || exists i :: 0 <= i < |rows| && Bears(g, rows[i], id)
  {
    hide Matches, Step, Bears;
    if rows == [] {
    } else {
      var n := |rows| - 1;
      PaidExactly(g, s, rows[..n], id);
      StepPays(g, Steps(g, s, rows[..n]), rows[n], id);
      assert forall i :: 0 <= i < n ==> rows[..n][i] == rows[i];
    }
  }

  /** p states a row that bears its identity, and cites that row's own fragment. */
  ghost predicate MadeFrom(g: Setting, p: Payment, row: Row, fragments: seq<Locator>) {
    && Bears(g, row, p.identity)
    && p.counterparty == row.counterparty && p.business == row.business && p.description == row.description
    && p.fragment < |fragments| && fragments[p.fragment] == row.locator
  }

  lemma StepMakes(g: Setting, s: State, row: Row)
    ensures var after := Step(g, s, row);
            && |after.payments| <= |s.payments| + 1
            && (|after.payments| > |s.payments| ==> MadeFrom(g, after.payments[|s.payments|], row, after.fragments))
  {
    hide Matches, OutOfScope, KeyOf, WithTask, Bears, Incomplete;
    if !Incomplete(g, row) {
      BearsItsIdentity(g, row, IdentityOf(g, row));
    }
  }

  /** Every payment a run adds is made from one of its rows, which counts and bears its identity. */
  lemma {:induction false} AddedFromRows(g: Setting, s: State, rows: seq<Row>, k: nat)
    requires |s.payments| <= k < |Steps(g, s, rows).payments|
    ensures var after := Steps(g, s, rows);
            exists i :: 0 <= i < |rows| && MadeFrom(g, after.payments[k], rows[i], after.fragments)
  {
    hide Step, MadeFrom;
    if rows == [] {
    } else {
      var n := |rows| - 1;
      var before, after := Steps(g, s, rows[..n]), Steps(g, s, rows);
      StepAccountsForRow(g, before, rows[n]);
      if k < |before.payments| {
        AddedFromRows(g, s, rows[..n], k);
        var i :| 0 <= i < n && MadeFrom(g, before.payments[k], rows[..n][i], before.fragments);
        MadeFromStays(g, before.payments[k], rows[i], before.fragments, after.fragments);
      } else {
        StepMakes(g, before, rows[n]);
      }
    }
  }

  lemma MadeFromStays(g: Setting, p: Payment, row: Row, before: seq<Locator>, after: seq<Locator>)
    requires MadeFrom(g, p, row, before) && before <= after
    ensures MadeFrom(g, p, row, after)
  {
    hide Bears;
  }

  // ---- Which rows are put out of scope ----

  datatype Decision = Decision(locator: Locator, confirmed: bool)

  function Occurrences(rows: seq<Row>, l: Locator): nat { |Keep(rows, (r: Row) => r.locator == l)| }

  method CountLocators(rows: seq<Row>) returns (counts: map<Locator, nat>)
    ensures forall l: Locator :: (if l in counts then counts[l] else 0) == Occurrences(rows, l)
  {
    counts := map[];
    for i := 0 to |rows|
      invariant forall l: Locator :: (if l in counts then counts[l] else 0) == Occurrences(rows[..i], l)
    {
      forall l: Locator
        ensures Occurrences(rows[..i + 1], l) == Occurrences(rows[..i], l) + (if rows[i].locator == l then 1 else 0)
      {
        assert rows[..i + 1][..i] == rows[..i];
      }
      var l := rows[i].locator;
      counts := counts[l := (if l in counts then counts[l] else 0) + 1];
    }
    assert rows[..|rows|] == rows;
  }

  /** The confirmed decisions, if each of them names exactly one row; otherwise none is applied. */
  method ResolveDecisions(decisions: seq<Decision>, rows: seq<Row>) returns (applied: Option<set<Locator>>)
    ensures applied.Some? <==> forall d :: d in decisions && d.confirmed ==> Occurrences(rows, d.locator) == 1
    ensures applied.Some? ==>
        forall l :: l in applied.value <==> exists d :: d in decisions && d.confirmed && d.locator == l
  {
    hide Occurrences;
    var counts := CountLocators(rows);
    var chosen: set<Locator> := {};
    for i := 0 to |decisions|
      invariant forall j :: 0 <= j < i && decisions[j].confirmed ==> Occurrences(rows, decisions[j].locator) == 1
      invariant forall l ::
                  l in chosen <==> exists j :: 0 <= j < i && decisions[j].confirmed && decisions[j].locator == l
    {
      var d := decisions[i];
      if d.confirmed {
        assert (if d.locator in counts then counts[d.locator] else 0) == Occurrences(rows, d.locator);
        if d.locator !in counts || counts[d.locator] != 1 {
          return None;
        }
        chosen := chosen + {d.locator};
      }
    }
    applied := Some(chosen);
  }

  // ---- The run ----

  datatype Outcome = Outcome(created: nat, replayed: nat, raised: seq<Task>)

  class Backfill {
    var fragments: seq<Locator>
    var payments: seq<Payment>
    var tasks: seq<Task>

    constructor (payments: seq<Payment>, tasks: seq<Task>)
      ensures View() == State([], payments, tasks)
    {
      this.fragments, this.payments, this.tasks := [], payments, tasks;
    }

    function View(): State
      reads this
    {
      State(fragments, payments, tasks)
    }

    /** The open task of this kind and key, a new one only if there is none. */
    method FindOrCreateTask(kind: Kind, key: string) returns (task: Task)
      modifies `tasks
      ensures task == Task(kind, key, true) && tasks == WithTask(old(tasks), kind, key)
    {
      for i := 0 to |tasks|
        invariant tasks == old(tasks)
        invariant forall j :: 0 <= j < i ==> tasks[j] != Task(kind, key, true)
      {
        if tasks[i].open && tasks[i].kind == kind && tasks[i].key == key {
          return tasks[i];
        }
      }
      task := Task(kind, key, true);
      tasks := tasks + [task];
    }

    method FindByIdentity(id: Identity) returns (matches: seq<Payment>)
      ensures matches == Matches(payments, id)
    {
      matches := [];
      for i := 0 to |payments|
        invariant matches == Matches(payments[..i], id)
      {
        assert payments[..i + 1] == payments[..i] + [payments[i]];
        MatchesNext(payments[..i], payments[i], id);
        if payments[i].identity == id {
          matches := matches + [payments[i]];
        }
      }
      assert payments[..|payments|] == payments;
    }

    /** One bank row. */
    method BackfillRow(g: Setting, row: Row, outcome: Outcome) returns (next: Outcome)
      modifies this
      ensures View() == Step(g, old(View()), row)
      ensures var d := DispositionOf(g, old(View()), row);
              && next.created == outcome.created + (if d.Created? then 1 else 0)
              && next.replayed == outcome.replayed + (if d.Replayed? then 1 else 0)
              && next.raised == if d.Raised?
                   then outcome.raised + [Task(d.kind, KeyOf(g, row, !d.kind.IdentityIncomplete?), true)]
                                else outcome.raised
    {
      hide Matches, KeyOf;
      next := outcome;
      var fragment := |fragments|;
      fragments := fragments + [row.locator];
      var direction := if row.signed >= 0 then In else Out;
      if direction.Out? && g.parties.Some? {
        if !Missing(row.party) && row.party.value !in g.parties.value {
          return;
        }
      }
      if row.locator in g.decided {
        return;
      }
      if Missing(g.account) || Missing(row.reference) {
        var task := FindOrCreateTask(IdentityIncomplete, KeyOf(g, row, false));
        next := next.(raised := next.raised + [task]);
        return;
      }
      var id := IdentityOf(g, row);
      var matches := FindByIdentity(id);
      if |matches| > 1 {
        var task := FindOrCreateTask(IdentityAmbiguous, KeyOf(g, row, true));
        next := next.(raised := next.raised + [task]);
        return;
      }
      if |matches| == 1 {
        if SameContent(matches[0], row) {
          next := next.(replayed := next.replayed + 1);
        } else {
          var task := FindOrCreateTask(Conflict, KeyOf(g, row, true));
          next := next.(raised := next.raised + [task]);
        }
        return;
      }
      payments := payments + [Payment(id, row.counterparty, row.business, row.description, fragment)];
      next := next.(created := next.created + 1);
    }

    /** Every row in turn. */
    method BackfillRows(g: Setting, rows: seq<Row>) returns (outcome: Outcome)
      modifies this
      ensures View() == Steps(g, old(View()), rows)
      ensures var t := TallyOf(g, old(View()), rows);
              outcome.created == t.created && outcome.replayed == t.replayed && |outcome.raised| == t.raised
      ensures forall task :: task in outcome.raised ==> task.open && task in tasks
    {
      hide Step, DispositionOf;
      outcome := Outcome(0, 0, []);
      for i := 0 to |rows|
        invariant View() == Steps(g, old(View()), rows[..i])
        invariant var t := TallyOf(g, old(View()), rows[..i]);
                  outcome.created == t.created && outcome.replayed == t.replayed && |outcome.raised| == t.raised
        invariant forall task :: task in outcome.raised ==> task.open && task in tasks
      {
        assert rows[..i + 1][..i] == rows[..i];
        ghost var before := View();
        StepKeepsTasks(g, before, rows[i]);
        outcome := BackfillRow(g, rows[i], outcome);
      }
      assert rows[..|rows|] == rows;
    }
  }

  lemma StepKeepsTasks(g: Setting, s: State, row: Row)
    ensures forall task :: task in s.tasks ==> task in Step(g, s, row).tasks
    ensures var d := DispositionOf(g, s, row);
            d.Raised? ==> Task(d.kind, KeyOf(g, row, !d.kind.IdentityIncomplete?), true) in Step(g, s, row).tasks
  {
    hide Matches, KeyOf;
  }
}
