/** Comparing a snapshot with an independently supplied baseline. */
module Reconciliation {
  import opened Options
  import opened Sequences
  import opened Strings
  import opened Values
  import opened Snapshots
  import K = Keys

  // ---- The baseline ----

  datatype BaselineEntry = BaselineEntry(key: string, expected: Fields, outcome: Option<string>)

  predicate EntryShaped(v: Value) {
    && v.Obj?
    && "key" in v.fields && v.fields["key"].Text? && !Blank(v.fields["key"].s)
    && "expected" in v.fields && v.fields["expected"].Obj?
    && ("outcome" in v.fields ==> v.fields["outcome"].Text?)
  }

  /** An object with a list of well-shaped entries; the list may be empty but not absent. */
  predicate BaselineShaped(v: Value) {
    && v.Obj? && "entries" in v.fields && v.fields["entries"].Arr?
    && forall i :: 0 <= i < |v.fields["entries"].items| ==> EntryShaped(v.fields["entries"].items[i])
  }

  function EntryOf(v: Value): BaselineEntry
    requires EntryShaped(v)
  {
    BaselineEntry(v.fields["key"].s, v.fields["expected"].fields,
                  if "outcome" in v.fields then Some(v.fields["outcome"].s) else None)
  }

  function EntriesOf(v: Value): seq<BaselineEntry>
    requires BaselineShaped(v)
  {
    var items := v.fields["entries"].items;
    seq(|items|, i requires 0 <= i < |items| => EntryOf(items[i]))
  }

  datatype BaselineError = NoEntriesList | EntryNotObject | BlankKey | ExpectedNotObject | OutcomeNotText

  /** The first fault met, if the baseline is malformed. */
  method ValidateBaseline(v: Value) returns (error: Option<BaselineError>)
    ensures error.None? <==> BaselineShaped(v)
    ensures error == Some(NoEntriesList) <==> !(v.Obj? && "entries" in v.fields && v.fields["entries"].Arr?)
  {
    if !v.Obj? || "entries" !in v.fields || !v.fields["entries"].Arr? {
      return Some(NoEntriesList);
    }
    var items := v.fields["entries"].items;
    for i := 0 to |items|
      invariant forall j :: 0 <= j < i ==> EntryShaped(items[j])
    {
      if !items[i].Obj? {
        return Some(EntryNotObject);
      }
      var fields := items[i].fields;
      if "key" !in fields || !fields["key"].Text? || Blank(fields["key"].s) {
        return Some(BlankKey);
      }
      if "expected" !in fields || !fields["expected"].Obj? {
        return Some(ExpectedNotObject);
      }
      if "outcome" in fields && !fields["outcome"].Text? {
        return Some(OutcomeNotText);
      }
    }
    return None;
  }

  // ---- What is reported ----

  const MATCH := "MATCH"
  const CORRECTED := "BEL_CORRECTED_LEGACY"
  const OPEN := "UNRESOLVED"

  datatype Finding = Finding(
    key: string, outcome: string, recorded: Option<string>, reason: Option<string>, expected: Option<Fields>,
    actual: Option<Fields>,
    differing: set<string>)

  predicate Recordable(outcome: Option<string>) { outcome == Some(MATCH) || outcome == Some(CORRECTED) }

  function At(actual: map<string, Fields>, key: string): Option<Fields> {
    if key in actual then Some(actual[key]) else None
  }

  predicate Names(baseline: seq<BaselineEntry>, key: string) { exists e :: e in baseline && e.key == key }

  predicate Repeated(baseline: seq<BaselineEntry>, key: string) {
    exists i, j :: 0 <= i < j < |baseline| && baseline[i].key == key && baseline[j].key == key
  }

  function RepeatedFinding(actual: map<string, Fields>, key: string): Finding {
    Finding(key, OPEN, None, Some("DUPLICATE_BASELINE_KEY"), None, At(actual, key), {})
  }

  function SourceFinding(actual: map<string, Fields>, key: string): Finding {
    Finding(key, OPEN, None, Some("UNRESOLVED_SOURCE"), None, At(actual, key), {})
  }

  function UnnamedFinding(actual: map<string, Fields>, key: string): Finding {
    Finding(key, OPEN, None, Some("MISSING_BASELINE_ENTRY"), None, At(actual, key), {})
  }

  function Adjudicate(r: Reading, actual: map<string, Fields>, e: BaselineEntry): Finding {
    if Unresolved(e.key) then Finding(e.key, OPEN, e.outcome, Some("UNADJUDICATABLE_KEY"), Some(e.expected),
                                      At(actual, e.key), {})
    else if !Recordable(e.outcome) then
      Finding(e.key, OPEN, e.outcome, Some("UNADJUDICATED_OUTCOME"), Some(e.expected), At(actual, e.key), {})
    else if e.key !in actual then Finding(e.key, OPEN, e.outcome, Some("MISSING_ACTUAL"), Some(e.expected), None, {})
    else if Agree(r, actual[e.key], e.expected) then Finding(e.key, e.outcome.value, e.outcome, None, None, None, {})
    else
      Finding(e.key, OPEN, e.outcome, Some("VALUE_MISMATCH"), Some(e.expected), Some(actual[e.key]),
              Differing(r, actual[e.key], e.expected))
  }

  ghost predicate Reported(r: Reading, actual: map<string, Fields>, baseline: seq<BaselineEntry>, f: Finding) {
    || (Repeated(baseline, f.key) && f == RepeatedFinding(actual, f.key))
    || (f.key in actual && Unresolved(f.key) && f == SourceFinding(actual, f.key))
    || (!Repeated(baseline, f.key) && exists e :: e in baseline && f == Adjudicate(r, actual, e))
    || (f.key in actual && !Unresolved(f.key) && !Names(baseline, f.key) && f == UnnamedFinding(actual, f.key))
  }

  lemma RepeatedWhenSame(baseline: seq<BaselineEntry>, i: nat, j: nat)
    requires i < j < |baseline|
    ensures baseline[i].key == baseline[j].key ==> Repeated(baseline, baseline[i].key)
  {
  }

  lemma NoneRepeated(baseline: seq<BaselineEntry>)
    requires forall i, j :: 0 <= i < j < |baseline| ==> baseline[i].key != baseline[j].key
    ensures forall key :: !Repeated(baseline, key)
  {
  }

  lemma SameEntry(baseline: seq<BaselineEntry>, d: BaselineEntry, e: BaselineEntry)
    requires d in baseline && e in baseline && d.key == e.key && !Repeated(baseline, d.key)
    ensures d == e
  {
    var i :| 0 <= i < |baseline| && baseline[i] == d;
    var j :| 0 <= j < |baseline| && baseline[j] == e;
  }

  lemma AdjudicatesItsKey(r: Reading, actual: map<string, Fields>, e: BaselineEntry)
    ensures Adjudicate(r, actual, e).key == e.key
  {
  }

  lemma RepeatedIsNamed(baseline: seq<BaselineEntry>, key: string)
    requires Repeated(baseline, key)
    ensures Names(baseline, key)
  {
  }

  /** A key that is no marker is reported at most once, and exactly when the snapshot or the baseline has it. */
  lemma ReportedOnce(r: Reading, actual: map<string, Fields>, baseline: seq<BaselineEntry>, key: string)
    requires !Unresolved(key)
    ensures forall f, g ::
              Reported(r, actual, baseline, f) && Reported(r, actual, baseline, g) && f.key == key && g.key == key ==>
                f == g
    ensures (exists f :: Reported(r, actual, baseline, f) && f.key == key) <==> key in actual || Names(baseline, key)
  {
    hide Agree, Differing, Repeated, Unresolved, Adjudicate;
    forall f, g | Reported(r, actual, baseline, f) && Reported(r, actual, baseline, g) && f.key == key && g.key == key
      ensures f == g
    {
      if Repeated(baseline, key) {
        RepeatedIsNamed(baseline, key);
      } else if Names(baseline, key) {
        var d :| d in baseline && f == Adjudicate(r, actual, d);
        var e :| e in baseline && g == Adjudicate(r, actual, e);
        AdjudicatesItsKey(r, actual, d);
        AdjudicatesItsKey(r, actual, e);
        SameEntry(baseline, d, e);
      } else {
        UnnamedIs(r, actual, baseline, f);
        UnnamedIs(r, actual, baseline, g);
      }
    }
    if Repeated(baseline, key) {
      RepeatedIsNamed(baseline, key);
      assert Reported(r, actual, baseline, RepeatedFinding(actual, key));
    } else if Names(baseline, key) {
      var e :| e in baseline && e.key == key;
      AdjudicatesItsKey(r, actual, e);
      assert Reported(r, actual, baseline, Adjudicate(r, actual, e));
    } else if key in actual {
      assert Reported(r, actual, baseline, UnnamedFinding(actual, key));
    } else if f :| Reported(r, actual, baseline, f) && f.key == key {
      UnnamedIs(r, actual, baseline, f);
    }
  }

  lemma UnnamedIs(r: Reading, actual: map<string, Fields>, baseline: seq<BaselineEntry>, f: Finding)
    requires Reported(r, actual, baseline, f) && !Names(baseline, f.key) && !Unresolved(f.key)
    ensures f.key in actual && f == UnnamedFinding(actual, f.key)
  {
    hide Agree, Differing, Adjudicate, Unresolved;
    if e :| e in baseline && f == Adjudicate(r, actual, e) {
      AdjudicatesItsKey(r, actual, e);
    }
    if Repeated(baseline, f.key) {
      RepeatedIsNamed(baseline, f.key);
    }
  }

  // ---- When a run passes ----

  ghost predicate Fits(r: Reading, actual: map<string, Fields>, e: BaselineEntry) {
    !Unresolved(e.key) && Recordable(e.outcome) && e.key in actual && Agree(r, actual[e.key], e.expected)
  }

  ghost predicate Reconciled(r: Reading, actual: map<string, Fields>, baseline: seq<BaselineEntry>) {
    && (forall key :: key in actual ==> !Unresolved(key) && Names(baseline, key))
    && (forall i, j :: 0 <= i < j < |baseline| ==> baseline[i].key != baseline[j].key)
    && (forall e :: e in baseline ==> Fits(r, actual, e))
  }

  lemma AdjudicatedFits(r: Reading, actual: map<string, Fields>, e: BaselineEntry)
    ensures Adjudicate(r, actual, e).outcome != OPEN <==> Fits(r, actual, e)
  {
  }

  /** Nothing is left unresolved exactly when snapshot and baseline fit each other. */
  lemma PassesExactly(r: Reading, actual: map<string, Fields>, baseline: seq<BaselineEntry>)
    ensures (forall f :: Reported(r, actual, baseline, f) ==> f.outcome != OPEN) <==> Reconciled(r, actual, baseline)
  {
    hide Adjudicate, Fits, Agree, Unresolved, Repeated;
    if forall f :: Reported(r, actual, baseline, f) ==> f.outcome != OPEN {
      forall i, j | 0 <= i < j < |baseline|
        ensures baseline[i].key != baseline[j].key
      {
        assert Repeated(baseline, baseline[i].key) ==>
            Reported(r, actual, baseline, RepeatedFinding(actual, baseline[i].key));
        RepeatedWhenSame(baseline, i, j);
      }
      forall e | e in baseline
        ensures Fits(r, actual, e)
      {
        AdjudicatesItsKey(r, actual, e);
        AdjudicatedFits(r, actual, e);
        assert Reported(r, actual, baseline, Adjudicate(r, actual, e));
      }
      forall key | key in actual
        ensures !Unresolved(key) && Names(baseline, key)
      {
        assert Unresolved(key) ==> Reported(r, actual, baseline, SourceFinding(actual, key));
        assert !Unresolved(key) && !Names(baseline, key) ==> Reported(r, actual, baseline, UnnamedFinding(actual, key));
      }
    }
    if Reconciled(r, actual, baseline) {
      NoneRepeated(baseline);
      forall f | Reported(r, actual, baseline, f)
        ensures f.outcome != OPEN
      {
        if e :| e in baseline && f == Adjudicate(r, actual, e) {
          AdjudicatedFits(r, actual, e);
        }
      }
    }
  }

  // ---- Back to the single observations ----

  /** The baseline adjudicates this observation and agrees with it. */
  ghost predicate Confirmed(r: Reading, baseline: seq<BaselineEntry>, e: Entry) {
    exists b :: b in baseline && b.key == e.key && Agree(r, e.value, b.expected)
  }

  ghost predicate Observed(entries: seq<Entry>, key: string) { exists e :: e in entries && e.key == key }

  /** No marker, repeats only where one fact may be seen several times, and baseline and observations agree one by
      one. */
  ghost predicate ObservationsReconciled(r: Reading, entries: seq<Entry>, baseline: seq<BaselineEntry>) {
    && (forall e :: e in entries ==> !Unresolved(e.key) && Confirmed(r, baseline, e))
    && (forall i, j :: 0 <= i < j < |entries| && entries[i].key == entries[j].key ==> ManyToOne(entries[i].key))
    && (forall i, j :: 0 <= i < j < |baseline| ==> baseline[i].key != baseline[j].key)
    && (forall b :: b in baseline ==> !Unresolved(b.key) && Recordable(b.outcome) && Observed(entries, b.key))
  }

  lemma PassReachesObservations(r: Reading, entries: seq<Entry>, baseline: seq<BaselineEntry>)
    requires Reconciled(r, Snapshot(r, entries, |entries|), baseline)
    ensures ObservationsReconciled(r, entries, baseline)
  {
    hide Agree, Snapshot, Collides, Collapses, Unresolved, Landing;
    var actual := Snapshot(r, entries, |entries|);
    NoMarkers(r, entries);
    forall i | 0 <= i < |entries|
      ensures entries[i].key in actual && Confirmed(r, baseline, entries[i])
    {
      PlainEntryHeld(r, entries, i);
      ObservationsAgree(r, entries, i);
      var b :| b in baseline && b.key == entries[i].key;
      AgreeIsEquivalence(r, entries[i].value, actual[b.key], b.expected);
    }
    forall i, j | 0 <= i < j < |entries| && entries[i].key == entries[j].key
      ensures ManyToOne(entries[i].key)
    {
      TwoAreTwo(entries, i, j);
      RepeatCollapses(r, entries, entries[i]);
    }
    forall b | b in baseline
      ensures Observed(entries, b.key)
    {
      HeldValue(r, entries, |entries|, b.key);
    }
  }

  lemma PlainEntryHeld(r: Reading, entries: seq<Entry>, i: nat)
    requires i < |entries| && !Collides(r, entries, entries[i])
    ensures entries[i].key in Snapshot(r, entries, |entries|)
  {
    hide Snapshot, Collides;
    KeysAreLandings(r, entries, |entries|);
    assert Landing(r, entries, i) == entries[i].key;
  }

  lemma RepeatCollapses(r: Reading, entries: seq<Entry>, e: Entry)
    requires e in entries && !Unresolved(e.key) && !Collides(r, entries, e) && |ValuesAt(entries, e.key)| >= 2
    ensures ManyToOne(e.key)
  {
    hide ValuesAt, Agree;
  }

  lemma ValuesComeFromEntries(entries: seq<Entry>, key: string, i: nat)
    requires i < |ValuesAt(entries, key)|
    ensures Entry(key, ValuesAt(entries, key)[i]) in entries
  {
    var own := Keep(entries, (e: Entry) => e.key == key);
    assert own[i] in own;
  }

  lemma {:induction false} RepeatsHaveTwoPlaces(entries: seq<Entry>, key: string)
    requires |ValuesAt(entries, key)| >= 2
    ensures exists i, j :: 0 <= i < j < |entries| && entries[i].key == key && entries[j].key == key
  {
    var n := |entries| - 1;
    var f := (e: Entry) => e.key == key;
    if entries[n].key == key {
      var own := Keep(entries[..n], f);
      assert own[0] in entries[..n];
      var i :| 0 <= i < n && entries[i] == own[0];
    } else {
      RepeatsHaveTwoPlaces(entries[..n], key);
      var i, j :| 0 <= i < j < n && entries[..n][i].key == key && entries[..n][j].key == key;
      assert entries[i].key == key && entries[j].key == key;
    }
  }

  lemma AgreedRepeatsCollapse(r: Reading, entries: seq<Entry>, baseline: seq<BaselineEntry>, e: Entry)
    requires ObservationsReconciled(r, entries, baseline) && e in entries
    ensures !Collides(r, entries, e)
  {
    hide Agree, ValuesAt, Unresolved;
    var values := ValuesAt(entries, e.key);
    if |values| > 1 {
      RepeatsHaveTwoPlaces(entries, e.key);
      forall i | 1 <= i < |values|
        ensures Agree(r, values[i], values[0])
      {
        ValuesComeFromEntries(entries, e.key, i);
        ValuesComeFromEntries(entries, e.key, 0);
        SameExpectation(r, baseline, Entry(e.key, values[i]), Entry(e.key, values[0]));
      }
    }
  }

  lemma SameExpectation(r: Reading, baseline: seq<BaselineEntry>, x: Entry, y: Entry)
    requires x.key == y.key && Confirmed(r, baseline, x) && Confirmed(r, baseline, y)
    requires forall i, j :: 0 <= i < j < |baseline| ==> baseline[i].key != baseline[j].key
    ensures Agree(r, x.value, y.value)
  {
    hide Agree;
    var b :| b in baseline && b.key == x.key && Agree(r, x.value, b.expected);
    var c :| c in baseline && c.key == y.key && Agree(r, y.value, c.expected);
    SameEntry(baseline, b, c);
    AgreeIsEquivalence(r, y.value, b.expected, b.expected);
    AgreeIsEquivalence(r, x.value, b.expected, y.value);
  }

  lemma ObservationsGivePass(r: Reading, entries: seq<Entry>, baseline: seq<BaselineEntry>)
    requires ObservationsReconciled(r, entries, baseline)
    ensures Reconciled(r, Snapshot(r, entries, |entries|), baseline)
  {
    hide Agree, Snapshot, Collides, Collapses, Unresolved, Landing;
    var actual := Snapshot(r, entries, |entries|);
    forall e | e in entries
      ensures !Collides(r, entries, e)
    {
      AgreedRepeatsCollapse(r, entries, baseline, e);
    }
    NoMarkers(r, entries);
    forall key | key in actual
      ensures !Unresolved(key) && Names(baseline, key)
    {
      HeldValue(r, entries, |entries|, key);
    }
    forall b | b in baseline
      ensures Fits(r, actual, b)
    {
      var e :| e in entries && e.key == b.key;
      var i :| 0 <= i < |entries| && entries[i] == e;
      PlainEntryHeld(r, entries, i);
      HeldValue(r, entries, |entries|, b.key);
      var j :| 0 <= j < |entries| && entries[j].key == b.key && actual[b.key] == entries[j].value;
      assert Confirmed(r, baseline, entries[j]);
      var c :| c in baseline && c.key == entries[j].key && Agree(r, entries[j].value, c.expected);
      SameEntry(baseline, b, c);
    }
  }

  /** A run passes exactly when every single observation, repeats included, agrees with the baseline. */
  lemma PassesExactlyOnObservations(r: Reading, entries: seq<Entry>, baseline: seq<BaselineEntry>)
    ensures Reconciled(r, Snapshot(r, entries, |entries|), baseline) <==> ObservationsReconciled(r, entries, baseline)
  {
    hide *;
    if Reconciled(r, Snapshot(r, entries, |entries|), baseline) {
      PassReachesObservations(r, entries, baseline);
    }
    if ObservationsReconciled(r, entries, baseline) {
      ObservationsGivePass(r, entries, baseline);
    }
  }

  // ---- The run ----

  function OpenAmong(findings: seq<Finding>): nat { |Keep(findings, (f: Finding) => f.outcome == OPEN)| }

  function SortKey(f: Finding): K.Key { [K.Text(f.key), K.Text(if f.reason.Some? then f.reason.value else "")] }

  ghost predicate KeysApart(findings: seq<Finding>) {
    forall i, j :: 0 <= i < j < |findings| ==> findings[i].key != findings[j].key
  }

  /** A part of the report: the given findings, one per key, all for the given reason and all open. */
  ghost predicate IsPart(part: seq<Finding>, keys: set<string>, finding: string -> Finding) {
    && KeysApart(part)
    && forall f :: f in part <==> f.key in keys && f == finding(f.key)
  }

  lemma PartNext(part: seq<Finding>, keys: set<string>, finding: string -> Finding, key: string)
    requires IsPart(part, keys, finding) && key !in keys && finding(key).key == key
    ensures IsPart(part + [finding(key)], keys + {key}, finding)
  {
  }

  lemma OpenNext(part: seq<Finding>, f: Finding)
    ensures OpenAmong(part + [f]) == OpenAmong(part) + (if f.outcome == OPEN then 1 else 0)
  {
    assert (part + [f])[..|part|] == part;
  }

  lemma {:induction false} OpenAdds(a: seq<Finding>, b: seq<Finding>)
    ensures OpenAmong(a + b) == OpenAmong(a) + OpenAmong(b)
  {
    if b == [] {
      assert a + b == a;
    } else {
      var n := |b| - 1;
      OpenAdds(a, b[..n]);
      assert a + b == (a + b[..n]) + [b[n]] && b == b[..n] + [b[n]];
      OpenNext(a + b[..n], b[n]);
      OpenNext(b[..n], b[n]);
    }
  }

  lemma OpenNone()
    ensures OpenAmong([]) == 0
  {
  }

  lemma PartNone(finding: string -> Finding)
    ensures IsPart([], {}, finding)
  {
  }

  /** One open finding for each of the keys. */
  method ReportEach(keys: set<string>, finding: string -> Finding) returns (part: seq<Finding>, unresolved: nat)
    requires forall key :: key in keys ==> finding(key).key == key && finding(key).outcome == OPEN
    ensures IsPart(part, keys, finding) && unresolved == OpenAmong(part)
  {
    hide IsPart, OpenAmong;
    var rest := keys;
    part, unresolved := [], 0;
    PartNone(finding);
    OpenNone();
    assert keys - rest == {};
    while rest != {}
      invariant rest <= keys && IsPart(part, keys - rest, finding) && unresolved == OpenAmong(part)
      decreases |rest|
    {
      var key :| key in rest;
      PartNext(part, keys - rest, finding, key);
      OpenNext(part, finding(key));
      assert keys - rest + {key} == keys - (rest - {key});
      rest := rest - {key};
      part := part + [finding(key)];
      unresolved := unresolved + 1;
    }
    assert keys - rest == keys;
  }

  ghost predicate KeysCounted(counts: map<string, nat>, baseline: seq<BaselineEntry>) {
    forall key: string :: if key in counts
      then Names(baseline, key) && counts[key] >= 1 && (counts[key] > 1 <==> Repeated(baseline, key))
                          else !Names(baseline, key)
  }

  lemma KeysCountedNone()
    ensures KeysCounted(map[], [])
  {
  }

  lemma KeysCountedNext(counts: map<string, nat>, baseline: seq<BaselineEntry>, i: nat)
    requires i < |baseline| && KeysCounted(counts, baseline[..i])
    ensures var key := baseline[i].key;
            KeysCounted(counts[key := (if key in counts then counts[key] else 0) + 1], baseline[..i + 1])
  {
    hide Names, Repeated;
    var next := counts[baseline[i].key := (if baseline[i].key in counts then counts[baseline[i].key] else 0) + 1];
    forall key: string
      ensures if key in next then Names(baseline[..i + 1], key) && next[key] >= 1
        && (next[key] > 1 <==> Repeated(baseline[..i + 1], key))
              else !Names(baseline[..i + 1], key)
    {
      NamesNext(baseline, i, key);
      if key !in counts && Repeated(baseline[..i], key) {
        RepeatedIsNamed(baseline[..i], key);
      }
    }
  }

  /** The keys the baseline names more than once. */
  method RepeatedKeys(baseline: seq<BaselineEntry>) returns (keys: set<string>)
    ensures forall key :: key in keys <==> Repeated(baseline, key)
  {
    hide KeysCounted, Names, Repeated;
    var counts: map<string, nat> := map[];
    KeysCountedNone();
    for i := 0 to |baseline|
      invariant KeysCounted(counts, baseline[..i])
    {
      KeysCountedNext(counts, baseline, i);
      var key := baseline[i].key;
      counts := counts[key := (if key in counts then counts[key] else 0) + 1];
    }
    assert baseline[..|baseline|] == baseline;
    keys := set key | key in counts && counts[key] > 1;
    RepeatedByCounts(counts, baseline);
  }

  lemma RepeatedByCounts(counts: map<string, nat>, baseline: seq<BaselineEntry>)
    requires KeysCounted(counts, baseline)
    ensures forall key: string :: key in counts && counts[key] > 1 <==> Repeated(baseline, key)
  {
    hide Names, Repeated;
    forall key: string
      ensures key in counts && counts[key] > 1 <==> Repeated(baseline, key)
    {
      if Repeated(baseline, key) {
        RepeatedIsNamed(baseline, key);
      }
    }
  }

  lemma NamesNext(baseline: seq<BaselineEntry>, i: nat, key: string)
    requires i < |baseline|
    ensures Names(baseline[..i + 1], key) <==> Names(baseline[..i], key) || key == baseline[i].key
    ensures Repeated(baseline[..i + 1], key)
        <==> Repeated(baseline[..i], key) || (key == baseline[i].key && Names(baseline[..i], key))
  {
    var front, next := baseline[..i], baseline[..i + 1];
    assert next == front + [baseline[i]];
    if Repeated(front, key) {
      var a, b :| 0 <= a < b < |front| && front[a].key == key && front[b].key == key;
      assert next[a].key == key && next[b].key == key;
    }
    if key == baseline[i].key && Names(front, key) {
      var e :| e in front && e.key == key;
      var a :| 0 <= a < |front| && front[a] == e;
      assert next[a].key == key && next[i].key == key;
    }
    if Repeated(next, key) {
      var a, b :| 0 <= a < b < |next| && next[a].key == key && next[b].key == key;
      if b < i {
        assert front[a].key == key && front[b].key == key;
      } else {
        assert front[a] in front;
      }
    }
  }

  /** The findings for the baseline entries whose key is named once. */
  ghost predicate Adjudicated(r: Reading, actual: map<string, Fields>, baseline: seq<BaselineEntry>, n: nat,
      part: seq<Finding>)
    requires n <= |baseline|
  {
    && KeysApart(part)
    && forall f :: f in part <==> exists i ::
         0 <= i < n && !Repeated(baseline, baseline[i].key) && f == Adjudicate(r, actual, baseline[i])
  }

  lemma AdjudicatedNone(r: Reading, actual: map<string, Fields>, baseline: seq<BaselineEntry>)
    ensures Adjudicated(r, actual, baseline, 0, [])
  {
  }

  lemma AdjudicatedNext(r: Reading, actual: map<string, Fields>, baseline: seq<BaselineEntry>, n: nat,
      part: seq<Finding>)
    requires n < |baseline| && Adjudicated(r, actual, baseline, n, part)
    ensures Adjudicated(r, actual, baseline, n + 1,
                        if Repeated(baseline, baseline[n].key) then part
                          else part + [Adjudicate(r, actual, baseline[n])])
  {
    hide Adjudicate, Repeated;
    AdjudicatesItsKey(r, actual, baseline[n]);
    if !Repeated(baseline, baseline[n].key) {
      forall f | f in part
        ensures f.key != baseline[n].key
      {
        var i :| 0 <= i < n && !Repeated(baseline, baseline[i].key) && f == Adjudicate(r, actual, baseline[i]);
        AdjudicatesItsKey(r, actual, baseline[i]);
        NotRepeated(baseline, i, n);
      }
    }
  }

  lemma NotRepeated(baseline: seq<BaselineEntry>, i: nat, j: nat)
    requires i < j < |baseline| && !Repeated(baseline, baseline[j].key)
    ensures baseline[i].key != baseline[j].key
  {
  }

  method AdjudicateAll(r: Reading, actual: map<string, Fields>, baseline: seq<BaselineEntry>, repeated: set<string>)
    returns (part: seq<Finding>, unresolved: nat)
    requires forall key :: key in repeated <==> Repeated(baseline, key)
    ensures Adjudicated(r, actual, baseline, |baseline|, part) && unresolved == OpenAmong(part)
  {
    hide *;
    part, unresolved := [], 0;
    AdjudicatedNone(r, actual, baseline);
    OpenNone();
    for i := 0 to |baseline|
      invariant Adjudicated(r, actual, baseline, i, part) && unresolved == OpenAmong(part)
    {
      AdjudicatedNext(r, actual, baseline, i, part);
      if baseline[i].key in repeated {
        continue;
      }
      var f := AdjudicateOne(r, actual, baseline[i]);
      OpenNext(part, f);
      part := part + [f];
      if f.outcome == OPEN {
        unresolved := unresolved + 1;
      }
    }
  }

  /** One baseline entry, through the checks in their order. */
  method AdjudicateOne(r: Reading, actual: map<string, Fields>, e: BaselineEntry) returns (f: Finding)
    ensures f == Adjudicate(r, actual, e)
  {
    hide Agree, Differing;
    var value := At(actual, e.key);
    if Unresolved(e.key) {
      return Finding(e.key, OPEN, e.outcome, Some("UNADJUDICATABLE_KEY"), Some(e.expected), value, {});
    }
    if e.outcome != Some(MATCH) && e.outcome != Some(CORRECTED) {
      return Finding(e.key, OPEN, e.outcome, Some("UNADJUDICATED_OUTCOME"), Some(e.expected), value, {});
    }
    if value.None? {
      return Finding(e.key, OPEN, e.outcome, Some("MISSING_ACTUAL"), Some(e.expected), None, {});
    }
    if Agree(r, value.value, e.expected) {
      return Finding(e.key, e.outcome.value, e.outcome, None, None, None, {});
    }
    var differing := Differing(r, value.value, e.expected);
    f := Finding(e.key, OPEN, e.outcome, Some("VALUE_MISMATCH"), Some(e.expected), value, differing);
  }

  /** The reason every finding of a part carries tells the parts apart. */
  lemma PartsMakeReport(r: Reading, actual: map<string, Fields>, baseline: seq<BaselineEntry>,
                        repeated: set<string>, sources: set<string>, unnamed: set<string>,
                        a: seq<Finding>, b: seq<Finding>, c: seq<Finding>, d: seq<Finding>)
    requires forall key :: key in repeated <==> Repeated(baseline, key)
    requires forall key :: key in sources <==> key in actual && Unresolved(key)
    requires forall key :: key in unnamed <==> key in actual && !Unresolved(key) && !Names(baseline, key)
    requires IsPart(a, repeated, key => RepeatedFinding(actual, key))
    requires IsPart(b, sources, key => SourceFinding(actual, key))
    requires Adjudicated(r, actual, baseline, |baseline|, c)
    requires IsPart(d, unnamed, key => UnnamedFinding(actual, key))
    ensures forall f :: f in a + b + c + d <==> Reported(r, actual, baseline, f)
    ensures Distinct(a + b + c + d)
  {
    hide Adjudicate, Repeated, Names, Unresolved, Adjudicated;
    forall f
      ensures f in c <==> !Repeated(baseline, f.key) && exists e :: e in baseline && f == Adjudicate(r, actual, e)
    {
      AdjudicatedIs(r, actual, baseline, c, f);
    }
    forall f | f in c
      ensures f.reason.None? || f.reason.value in {"UNADJUDICATABLE_KEY", "UNADJUDICATED_OUTCOME", "MISSING_ACTUAL",
                                                   "VALUE_MISMATCH"}
    {
      var e :| e in baseline && f == Adjudicate(r, actual, e);
      AdjudicationReasons(r, actual, e);
    }
    AdjudicatedApart(r, actual, baseline, c);
    PartsApart(a, b);
    PartsApart(a + b, c);
    PartsApart(a + b + c, d);
  }

  lemma AdjudicatedApart(r: Reading, actual: map<string, Fields>, baseline: seq<BaselineEntry>, c: seq<Finding>)
    requires Adjudicated(r, actual, baseline, |baseline|, c)
    ensures KeysApart(c)
  {
  }

  lemma AdjudicationReasons(r: Reading, actual: map<string, Fields>, e: BaselineEntry)
    ensures var f := Adjudicate(r, actual, e);
            f.reason.None? || f.reason.value in {"UNADJUDICATABLE_KEY", "UNADJUDICATED_OUTCOME", "MISSING_ACTUAL",
                                                 "VALUE_MISMATCH"}
  {
  }

  lemma AdjudicatedIs(r: Reading, actual: map<string, Fields>, baseline: seq<BaselineEntry>, c: seq<Finding>,
      f: Finding)
    requires Adjudicated(r, actual, baseline, |baseline|, c)
    ensures f in c <==> !Repeated(baseline, f.key) && exists e :: e in baseline && f == Adjudicate(r, actual, e)
  {
    hide Adjudicate, Repeated;
    if f in c {
      var i :| 0 <= i < |baseline| && !Repeated(baseline, baseline[i].key) && f == Adjudicate(r, actual, baseline[i]);
      AdjudicatesItsKey(r, actual, baseline[i]);
      assert baseline[i] in baseline;
    }
    if !Repeated(baseline, f.key) && exists e :: e in baseline && f == Adjudicate(r, actual, e) {
      var e :| e in baseline && f == Adjudicate(r, actual, e);
      AdjudicatesItsKey(r, actual, e);
      var i :| 0 <= i < |baseline| && baseline[i] == e;
    }
  }

  lemma PartsApart(a: seq<Finding>, b: seq<Finding>)
    requires Distinct(a) && Distinct(b) && forall f, g :: f in a && g in b ==> f != g
    ensures Distinct(a + b)
  {
    forall i, j | 0 <= i < j < |a + b|
      ensures (a + b)[i] != (a + b)[j]
    {
      if i < |a| <= j {
        assert a[i] in a && b[j - |a|] in b;
      }
    }
  }

  /** The whole comparison. */
  method Reconcile(r: Reading, actual: map<string, Fields>, baseline: seq<BaselineEntry>)
    returns (findings: seq<Finding>, unresolved: nat, passed: bool)
    ensures forall f :: f in findings <==> Reported(r, actual, baseline, f)
    ensures Distinct(findings) && K.Ordered(findings, SortKey)
    ensures unresolved == OpenAmong(findings)
    ensures passed <==> Reconciled(r, actual, baseline)
  {
    hide *;
    var repeated := RepeatedKeys(baseline);
    var named := set e | e in baseline :: e.key;
    var sources := set key | key in actual && Unresolved(key);
    var unnamed := set key | key in actual && !Unresolved(key) && key !in repeated && key !in named;
    UnnamedAre(baseline, repeated, named);
    FindingsOpen(actual);
    var a, m := ReportEach(repeated, key => RepeatedFinding(actual, key));
    var b, n := ReportEach(sources, key => SourceFinding(actual, key));
    var c, o := AdjudicateAll(r, actual, baseline, repeated);
    var d, p := ReportEach(unnamed, key => UnnamedFinding(actual, key));
    var all := a + b + c + d;
    unresolved := m + n + o + p;
    passed := unresolved == 0;
    findings := K.SortBy(all, SortKey);
    PartsMakeReport(r, actual, baseline, repeated, sources, unnamed, a, b, c, d);
    OpenAdds(a, b);
    OpenAdds(a + b, c);
    OpenAdds(a + b + c, d);
    SortedReport(all);
    NoneOpen(all);
    PassesExactly(r, actual, baseline);
  }

  /** Validate, snapshot, compare: a run passes exactly when every observation agrees with a well-shaped baseline. */
  method RunReconciliation(r: Reading, builder: SnapshotBuilder, baseline: Value)
    returns (error: Option<BaselineError>, findings: seq<Finding>, passed: bool)
    ensures error.None? <==> BaselineShaped(baseline)
    ensures BaselineShaped(baseline) ==> (passed <==> ObservationsReconciled(r, builder.entries, EntriesOf(baseline)))
    ensures error.Some? ==> findings == [] && !passed
  {
    hide ObservationsReconciled, BaselineShaped, EntriesOf, Reported, Reconciled;
    findings, passed := [], false;
    error := ValidateBaseline(baseline);
    if error.None? {
      var actual := builder.Build(r);
      var unresolved;
      findings, unresolved, passed := Reconcile(r, actual, EntriesOf(baseline));
      PassesExactlyOnObservations(r, builder.entries, EntriesOf(baseline));
    }
  }

  lemma UnnamedAre(baseline: seq<BaselineEntry>, repeated: set<string>, named: set<string>)
    requires forall key :: key in repeated <==> Repeated(baseline, key)
    requires named == set e | e in baseline :: e.key
    ensures forall key :: key !in repeated && key !in named <==> !Names(baseline, key)
  {
    forall key: string
      ensures key !in repeated && key !in named <==> !Names(baseline, key)
    {
      if Repeated(baseline, key) {
        RepeatedIsNamed(baseline, key);
      }
    }
  }

  lemma FindingsOpen(actual: map<string, Fields>)
    ensures forall key :: RepeatedFinding(actual, key).key == key && RepeatedFinding(actual, key).outcome == OPEN
    ensures forall key :: SourceFinding(actual, key).key == key && SourceFinding(actual, key).outcome == OPEN
    ensures forall key :: UnnamedFinding(actual, key).key == key && UnnamedFinding(actual, key).outcome == OPEN
  {
  }

  lemma SortedReport(all: seq<Finding>)
    ensures var s := K.SortBy(all, SortKey);
            && (forall f :: f in s <==> f in all) && K.Ordered(s, SortKey) && OpenAmong(s) == OpenAmong(all)
            && (Distinct(all) ==> Distinct(s))
  {
    var s := K.SortBy(all, SortKey);
    K.SortByOrdered(all, SortKey);
    SameMembers(s, all);
    var open := (f: Finding) => f.outcome == OPEN;
    KeepForgetsListing(s, all, open);
    SameLength(Keep(s, open), Keep(all, open));
    if Distinct(all) {
      DistinctPermutes(all, s);
    }
  }

  lemma NoneOpen(all: seq<Finding>)
    ensures OpenAmong(all) == 0 <==> forall f :: f in all ==> f.outcome != OPEN
  {
    var open := (f: Finding) => f.outcome == OPEN;
    if OpenAmong(all) != 0 {
      assert Keep(all, open)[0] in Keep(all, open);
    }
    if f :| f in all && f.outcome == OPEN {
      assert f in Keep(all, open);
    }
  }
}
