/**
 The append-only revision chain behind ContractItem and Contract facts: create, supplement and
 correct, each supplement or correction split into the read that prepares it and the
 compare-and-swap that installs it, so that any number of writers may interleave; and the ledger
 import, which adds Contracts without asking whether one of that identity exists.
 */
module FactRevisionRules {
  import opened Options
  import opened Strings

  datatype Value = Text(text: string) | Number(number: real)

  /** A NULL column is None; a revision's snapshot has an entry for every field. */
  type Values = map<string, Option<Value>>

  datatype Scope = ItemFacts | ContractFacts

  const ITEM_FIELDS: set<string> := {
    "sku", "product_name", "specification", "quantity", "unit", "unit_price", "gross_amount", "tax_rate", "net_amount",
    "tax_classification_code"}

  const CONTRACT_FIELDS: set<string> := {"contract_type", "buyer", "gross_amount", "currency", "contract_date"}

  function FieldsOf(scope: Scope): set<string> {
    if scope.ItemFacts? then ITEM_FIELDS else CONTRACT_FIELDS
  }

  /** Fields a fact of this scope may never lack. */
  function RequiredOf(scope: Scope): set<string> {
    if scope.ItemFacts? then {} else {"gross_amount", "currency"}
  }

  datatype RevisionKind = Initial | Supplement | Correction

  /** The field names asserted are recorded, except for an INITIAL revision that a ledger import adds. */
  datatype Revision = Revision(
    id: nat, anchor: nat, kind: RevisionKind, values: Values, fragment: nat, supersededBy: Option<nat>,
    asserted: Option<set<string>>)

  function AssertedNames(r: Revision): set<string> {
    if r.asserted.Some? then r.asserted.value else NonNull(r.values).Keys
  }

  /** What a revision itself asserted, as opposed to what it carried forward. */
  function AssertionOf(r: Revision): Values {
    map f | f in AssertedNames(r) && f in r.values :: r.values[f]
  }

  datatype Identity = ItemIdentity(contract: nat, key: string) | ContractIdentity(no: string, party: Option<string>)

  /** The stored rows.  `next` is the next unused id; contracts and fragments are other tables' keys. */
  datatype Store = Store(
    scope: Scope, next: nat, contracts: set<nat>, fragments: set<nat>, anchors: map<nat, Identity>,
    rows: map<nat, Revision>)

  // ---- Validation ----

  predicate TaxCodeValid(fields: Values) {
    "tax_classification_code" in fields && fields["tax_classification_code"].Some? ==>
      var code := fields["tax_classification_code"].value;
      code.Text? && code.text != "" && Trimmed(code.text) && |code.text| <= 64
  }

  predicate FieldsValid(scope: Scope, fields: Values) {
    fields.Keys <= FieldsOf(scope) && (scope.ItemFacts? ==> TaxCodeValid(fields))
  }

  function NonNull(fields: Values): Values {
    map f | f in fields && fields[f].Some? :: fields[f]
  }

  /** Every field of the scope, unknown where nothing is given. */
  function Normalized(scope: Scope, fields: Values): Values {
    map f | f in FieldsOf(scope) :: if f in fields then fields[f] else None
  }

  // ---- Outcomes ----

  datatype Error =
    | KeyRequired | FieldInvalid | RequiredMissing | ContractNotFound | FragmentNotFound | AnchorNotFound | NoFields
    | NullAsserted | AmbiguousIdentity | ConflictSameEvidence | ConflictOtherEvidence | ConflictIntent | ConflictContent
    | StaleTarget | AlreadyKnown | NothingToCorrect | SupersededConcurrently

  datatype Outcome =
    | Created(anchor: nat)
    | Written(revision: nat)
    | Replay(anchor: nat)
    | Corroborating(anchor: nat)
    | Rejected(error: Error)

  // ---- Lookups ----

  predicate IsInitial(s: Store, a: nat, id: nat) { id in s.rows && s.rows[id].anchor == a && s.rows[id].kind.Initial? }

  predicate IsCurrent(s: Store, a: nat, id: nat) {
    id in s.rows && s.rows[id].anchor == a && s.rows[id].supersededBy.None?
  }

  predicate BackedBy(s: Store, a: nat, fragment: nat, id: nat) {
    id in s.rows && s.rows[id].anchor == a && s.rows[id].fragment == fragment
  }

  predicate HasIdentity(s: Store, a: nat, identity: Identity) { a in s.anchors && s.anchors[a] == identity }

  function AnchorsOf(s: Store, identity: Identity): set<nat> {
    set a | a in s.anchors && s.anchors[a] == identity
  }

  // ---- Create ----

  predicate KeyMissing(identity: Identity) {
    match identity
    case ItemIdentity(_, key) => key == ""
    case ContractIdentity(no, _) => no == ""
  }

  datatype CreateCall = CreateCall(identity: Identity, fields: Values, fragment: nat)

  /** The rejections that do not depend on an existing anchor. */
  function CreateRefusal(s: Store, c: CreateCall): Option<Error> {
    if KeyMissing(c.identity) then Some(KeyRequired)
    else if !FieldsValid(s.scope, c.fields) then Some(FieldInvalid)
    else if exists f :: f in RequiredOf(s.scope) && (f !in c.fields || c.fields[f].None?) then Some(RequiredMissing)
    else if c.identity.ItemIdentity? && c.identity.contract !in s.contracts then Some(ContractNotFound)
    else if c.fragment !in s.fragments then Some(FragmentNotFound)
    else None
  }

  /** What an existing anchor whose INITIAL revision is r answers to a create call. */
  function AnswerExisting(a: nat, r: Revision, c: CreateCall): Outcome {
    var same := r.fragment == c.fragment;
    if NonNull(c.fields) == AssertionOf(r) then (if same then Replay(a) else Corroborating(a))
    else if same then Rejected(ConflictSameEvidence)
    else Rejected(ConflictOtherEvidence)
  }

  function InitialRevision(s: Store, c: CreateCall): Revision {
    Revision(s.next + 1, s.next, Initial, Normalized(s.scope, c.fields), c.fragment, None, Some(NonNull(c.fields).Keys))
  }

  /** A new anchor and its INITIAL revision. */
  function Plant(s: Store, identity: Identity, r: Revision): Store {
    s.(next := s.next + 2, anchors := s.anchors[s.next := identity], rows := s.rows[s.next + 1 := r])
  }

  function Install(s: Store, c: CreateCall): Store { Plant(s, c.identity, InitialRevision(s, c)) }

  /** The create command, as a relation between a state, a call, its outcome and the next state. */
  ghost predicate Creates(s: Store, c: CreateCall, o: Outcome, s': Store) {
    var matches := AnchorsOf(s, c.identity);
    if CreateRefusal(s, c).Some? then o == Rejected(CreateRefusal(s, c).value) && s' == s
    else if |matches| > 1 then o == Rejected(AmbiguousIdentity) && s' == s
    else if matches == {} then o == Created(s.next) && s' == Install(s, c)
    else s' == s && exists a, id :: a in matches && IsInitial(s, a, id) && o == AnswerExisting(a, s.rows[id], c)
  }

  // ---- The contract ledger ----

  /** A business row of the ledger workbook; its evidence fragment is recorded with it. */
  datatype LedgerRow = LedgerRow(no: string, party: Option<string>, buyer: Option<string>, gross: real, fragment: nat)

  const LEDGER_TYPE := "出口报关购销合同"
  const LEDGER_CURRENCY := "CNY"

  function LedgerValues(row: LedgerRow): Values {
    map[
      "contract_type" := Some(Text(LEDGER_TYPE)),
      "buyer" := (if row.buyer.Some? then Some(Text(row.buyer.value)) else None),
      "gross_amount" := Some(Number(row.gross)),
      "currency" := Some(Text(LEDGER_CURRENCY)),
      "contract_date" := None]
  }

  function LedgerIdentity(row: LedgerRow): Identity { ContractIdentity(row.no, row.party) }

  function LedgerRevision(s: Store, row: LedgerRow): Revision {
    Revision(s.next + 1, s.next, Initial, LedgerValues(row), row.fragment, None, None)
  }

  /** One ledger row is one new Contract, whatever Contracts there are already. */
  function AddLedgerRow(s: Store, row: LedgerRow): Store {
    Plant(s.(fragments := s.fragments + {row.fragment}), LedgerIdentity(row), LedgerRevision(s, row))
  }

  function ImportLedger(s: Store, ledger: seq<LedgerRow>): Store {
    if ledger == [] then s else AddLedgerRow(ImportLedger(s, ledger[..|ledger| - 1]), ledger[|ledger| - 1])
  }

  /** Business rows have a number, and each row its own new fragment. */
  ghost predicate NewLedger(s: Store, ledger: seq<LedgerRow>) {
    && s.scope.ContractFacts?
    && (forall row :: row in ledger ==> row.no != "" && row.fragment !in s.fragments)
    && forall i, j :: 0 <= i < j < |ledger| ==> ledger[i].fragment != ledger[j].fragment
  }

  function RowsNaming(ledger: seq<LedgerRow>, identity: Identity): nat {
    if ledger == [] then 0
    else
      RowsNaming(ledger[..|ledger| - 1], identity) + (if LedgerIdentity(ledger[|ledger| - 1]) == identity then 1 else 0)
  }

  /** The numbers the import reports as conflicting: those that two of its own rows bear. */
  function ConflictingNumbers(ledger: seq<LedgerRow>): set<string> {
    set i, j | 0 <= i < j < |ledger| && ledger[i].no == ledger[j].no :: ledger[i].no
  }

  // ---- Supplement and correct ----

  datatype ReviseCall = ReviseCall(kind: RevisionKind, anchor: nat, basedOn: nat, fields: Values, fragment: nat)

  function ReviseRefusal(s: Store, c: ReviseCall): Option<Error> {
    if !FieldsValid(s.scope, c.fields) then Some(FieldInvalid)
    else if c.fields == map[] then Some(NoFields)
    else if s.scope.ContractFacts? && exists f :: f in c.fields && c.fields[f].None? then Some(NullAsserted)
    else if c.anchor !in s.anchors then Some(AnchorNotFound)
    else if c.fragment !in s.fragments then Some(FragmentNotFound)
    else None
  }

  /** The answer when the fragment already backs revision r of the anchor. */
  function AnswerReuse(r: Revision, c: ReviseCall): Outcome {
    if r.kind != c.kind then Rejected(ConflictIntent)
    else if AssertionOf(r) != c.fields then Rejected(ConflictContent)
    else Replay(c.anchor)
  }

  /** Is the call's intent at odds with what the current revision knows? */
  function IntentRefusal(current: Values, c: ReviseCall): Option<Error> {
    if c.kind.Supplement? then
      if exists f :: f in c.fields && f in current && current[f].Some? && current[f] != c.fields[f]
      then Some(AlreadyKnown)
      else None
    else
      if exists f :: f in c.fields && (f !in current || current[f].None?) then Some(NothingToCorrect) else None
  }

  /** The answer, if any, that reading the current revision already settles. */
  function AnswerCurrent(current: Revision, c: ReviseCall): Outcome {
    if current.id != c.basedOn then Rejected(StaleTarget)
    else
      var refusal := IntentRefusal(current.values, c);
      if refusal.Some? then Rejected(refusal.value) else Written(current.id)
  }

  function Merged(current: Revision, c: ReviseCall, id: nat): Revision {
    Revision(id, c.anchor, c.kind, current.values + c.fields, c.fragment, None, Some(c.fields.Keys))
  }

  /** The read half: either an answer at once, or a revision ready to be installed. */
  ghost predicate Answers(s: Store, c: ReviseCall, o: Outcome) {
    if ReviseRefusal(s, c).Some? then o == Rejected(ReviseRefusal(s, c).value)
    else if exists id :: BackedBy(s, c.anchor, c.fragment, id) then
      exists id :: BackedBy(s, c.anchor, c.fragment, id) && o == AnswerReuse(s.rows[id], c)
    else exists id :: IsCurrent(s, c.anchor, id) && o == AnswerCurrent(s.rows[id], c) && o.Rejected?
  }

  ghost predicate Prepares(s: Store, c: ReviseCall, r: Revision) {
    && !c.kind.Initial?
    && ReviseRefusal(s, c).None?
    && (forall id :: !BackedBy(s, c.anchor, c.fragment, id))
    && IsCurrent(s, c.anchor, c.basedOn)
    && IntentRefusal(s.rows[c.basedOn].values, c).None?
    && r == Merged(s.rows[c.basedOn], c, s.next)
  }

  /** The compare-and-swap: retire the base if it is still its anchor's current revision, and only
      then insert the new one. */
  predicate CanAppend(s: Store, r: Revision, basedOn: nat) { IsCurrent(s, r.anchor, basedOn) }

  function Append(s: Store, r: Revision, basedOn: nat): Store {
    if CanAppend(s, r, basedOn)
    then s.(rows := s.rows[basedOn := s.rows[basedOn].(supersededBy := Some(r.id))][r.id := r])
    else s
  }

  // ---- Many writers ----

  datatype Pending = Pending(basedOn: nat, revision: Revision)

  datatype System = System(store: Store, pending: map<nat, Pending>)

  datatype Step =
    | AddContract(contract: nat)
    | AddFragment(fragment: nat)
    | Create(call: CreateCall, answer: Outcome)
    | Import(ledger: seq<LedgerRow>)
    | Answer(reviseCall: ReviseCall, given: Outcome)
    | Prepare(writer: nat, prepared: ReviseCall)
    | Commit(writer: nat)
    | Abandon(writer: nat)

  ghost predicate Next(y: System, step: Step, y': System) {
    match step
    case AddContract(c) => y' == y.(store := y.store.(contracts := y.store.contracts + {c}))
    case AddFragment(f) => y' == y.(store := y.store.(fragments := y.store.fragments + {f}))
    case Create(call, o) => y'.pending == y.pending && Creates(y.store, call, o, y'.store)
    case Import(ledger) => NewLedger(y.store, ledger) && y' == y.(store := ImportLedger(y.store, ledger))
    case Answer(call, o) => y' == y && !call.kind.Initial? && Answers(y.store, call, o)
    case Prepare(w, call) =>
      && w !in y.pending
      && y'.store == y.store.(next := y.store.next + 1)
      && exists r :: Prepares(y.store, call, r) && y'.pending == y.pending[w := Pending(call.basedOn, r)]
    case Commit(w) =>
      && w in y.pending
      && y'.store == Append(y.store, y.pending[w].revision, y.pending[w].basedOn)
      && y'.pending == y.pending - {w}
    case Abandon(w) => y' == y.(pending := y.pending - {w})
  }

  function Empty(scope: Scope): System { System(Store(scope, 0, {}, {}, map[], map[]), map[]) }

  /** A run: states joined by steps, starting from nothing. */
  ghost predicate IsRun(scope: Scope, states: seq<System>, steps: seq<Step>) {
    && |states| == |steps| + 1
    && states[0] == Empty(scope)
    && forall i :: 0 <= i < |steps| ==> Next(states[i], steps[i], states[i + 1])
  }

  // ---- The invariant ----

  /** chain lists the anchor's revisions from INITIAL to current, each superseded by the next, each
      carrying forward what it did not assert. */
  ghost predicate IsChain(s: Store, a: nat, chain: seq<nat>) {
    && |chain| > 0
    && (forall i, j :: 0 <= i < j < |chain| ==> chain[i] != chain[j])
    && (forall id :: id in chain <==> id in s.rows && s.rows[id].anchor == a)
    && (forall i :: 0 <= i < |chain| ==> Linked(s, chain, i))
  }

  /** Position i of a chain: its kind, its successor, and what it carries forward. */
  ghost predicate Linked(s: Store, chain: seq<nat>, i: nat)
    requires i < |chain| && forall id :: id in chain ==> id in s.rows
  {
    var r := s.rows[chain[i]];
    && (r.kind.Initial? <==> i == 0)
    && (r.asserted.None? ==> i == 0)
    && r.supersededBy == (if i + 1 < |chain| then Some(chain[i + 1]) else None)
    && Carries(s.scope, r, if i == 0 then Unknown(s.scope) else s.rows[chain[i - 1]].values)
  }

  function Unknown(scope: Scope): Values { map f | f in FieldsOf(scope) :: None }

  /** r has a value for every field, and the ones it did not assert are those of `before`. */
  ghost predicate Carries(scope: Scope, r: Revision, before: Values) {
    && r.values.Keys == FieldsOf(scope)
    && AssertedNames(r) <= FieldsOf(scope)
    && forall f :: f in FieldsOf(scope) && f !in AssertedNames(r) && f in before ==> r.values[f] == before[f]
  }

  ghost predicate RequiredKnown(scope: Scope, values: Values) {
    forall f :: f in RequiredOf(scope) ==> f in values && values[f].Some?
  }

  /** A Contract's number and counterparty may be borne by several anchors; a ContractItem's identity by one. */
  ghost predicate IdentitiesApart(s: Store) {
    forall a, b :: a in s.anchors && b in s.anchors && a != b ==> s.anchors[a] != s.anchors[b]
  }

  ghost predicate StoreInv(s: Store) {
    && (forall id :: id in s.rows ==>
          && s.rows[id].id == id && id < s.next && s.rows[id].anchor in s.anchors
          && RequiredKnown(s.scope, s.rows[id].values))
    && (forall a :: a in s.anchors ==> a < s.next && exists chain :: IsChain(s, a, chain))
    && (s.scope.ItemFacts? ==> IdentitiesApart(s))
    && (forall x, y :: x in s.rows && y in s.rows && x != y && s.rows[x].anchor == s.rows[y].anchor ==>
          s.rows[x].fragment != s.rows[y].fragment)
  }

  /** A prepared revision is the merge over its base, and as long as the base is current nothing
      else of the anchor uses its fragment. */
  ghost predicate PendingInv(s: Store, p: Pending) {
    && p.basedOn in s.rows
    && s.rows[p.basedOn].anchor == p.revision.anchor
    && p.revision.anchor in s.anchors
    && p.revision.id < s.next && p.revision.id !in s.rows
    && !p.revision.kind.Initial?
    && p.revision.supersededBy.None?
    && p.revision.asserted.Some?
    && Carries(s.scope, p.revision, s.rows[p.basedOn].values)
    && RequiredKnown(s.scope, p.revision.values)
    && (s.rows[p.basedOn].supersededBy.None? ==> forall id :: !BackedBy(s, p.revision.anchor, p.revision.fragment, id))
  }

  ghost predicate Inv(y: System) {
    && StoreInv(y.store)
    && (forall w :: w in y.pending ==> PendingInv(y.store, y.pending[w]))
    && (forall v, w :: v in y.pending && w in y.pending && v != w ==>
          y.pending[v].revision.id != y.pending[w].revision.id)
  }
}
