/** What a baseline must look like, what a repeated key leaves in the snapshot, and what the report says of each key. */
module ReconciliationMeaning {
  import opened Options
  import opened Strings
  import opened Values
  import opened Snapshots
  import opened Reconciliation
  import opened ValueMeaning

  // ---- What a baseline must look like ----

  /** The field is there and is a text. */
  ghost predicate TextAt(v: Value, field: string) { v.Obj? && field in v.fields && v.fields[field].Text? }

  /** An object with a list of entries, each an object with a key that is more than white space, an object of expected
      fields and, if any, an outcome that is a text; the list may be empty. */
  lemma ShapedMeans(v: Value)
    ensures BaselineShaped(v) <==>
              && v.Obj? && "entries" in v.fields && v.fields["entries"].Arr?
              && forall e :: e in v.fields["entries"].items ==>
                   && TextAt(e, "key") && (exists c :: c in e.fields["key"].s && !IsSpace(c))
                   && "expected" in e.fields && e.fields["expected"].Obj?
                   && ("outcome" in e.fields ==> TextAt(e, "outcome"))
  {
    if v.Obj? && "entries" in v.fields && v.fields["entries"].Arr? {
      var items := v.fields["entries"].items;
      forall e | e in items
        ensures EntryShaped(e) <==>
                  && TextAt(e, "key") && (exists c :: c in e.fields["key"].s && !IsSpace(c))
                  && "expected" in e.fields && e.fields["expected"].Obj?
                  && ("outcome" in e.fields ==> TextAt(e, "outcome"))
      {
        if TextAt(e, "key") {
          BlankMeans(e.fields["key"].s);
        }
      }
      assert forall e :: e in items <==> exists i :: 0 <= i < |items| && items[i] == e;
    }
  }

  lemma BlankMeans(s: string)
    ensures !Blank(s) <==> exists c :: c in s && !IsSpace(c)
  {
    if !Blank(s) {
      var i :| 0 <= i < |s| && !IsSpace(s[i]);
      assert s[i] in s;
    }
  }

  /** Each entry is read as it stands. */
  lemma EntriesMean(v: Value, i: nat)
    requires BaselineShaped(v) && i < |v.fields["entries"].items|
    ensures var e, b := v.fields["entries"].items[i].fields, EntriesOf(v)[i];
            && |EntriesOf(v)| == |v.fields["entries"].items|
            && e["key"] == Text(b.key) && e["expected"] == Obj(b.expected)
            && (b.outcome.Some? <==> "outcome" in e) && (b.outcome.Some? ==> e["outcome"] == Text(b.outcome.value))
  {
  }

  // ---- What a snapshot holds of a repeated key ----

  /** Repeats are legal in the three namespaces where one fact may be seen once per linked contract. */
  lemma ManyToOneMeans(key: string)
    ensures ManyToOne(key) <==>
              || (15 <= |key| && key[..15] == "sales_contract:")
              || (25 <= |key| && key[..25] == "sales_invoice_allocation:")
              || (28 <= |key| && key[..28] == "incoming_receipt_allocation:")
  {
  }

  /** An illegal or contradictory repeat leaves, for each of its observations, a marker that names the key. */
  lemma RepeatMarked(r: Reading, entries: seq<Entry>, i: nat, j: nat)
    requires WellMarked(entries) && i < |entries| && j < |entries| && i != j && !("unresolved:" <= entries[i].key)
    requires entries[j].key == entries[i].key
    requires !ManyToOne(entries[i].key) || !Agree(r, entries[i].value, entries[j].value)
    ensures exists n :: Marks(r, entries, n, entries[i].key)
  {
    hide Agree, Collapses, Collides, Snapshot, Collisions, ValuesAt, ManyToOne, Digits;
    RepeatCollides(r, entries, i, j);
    LandedStays(r, entries, i, |entries|);
    assert Marks(r, entries, Collisions(r, entries, i) + 1, entries[i].key);
  }

  ghost predicate Marks(r: Reading, entries: seq<Entry>, n: nat, key: string) {
    var marker := "unresolved:duplicate_identity:" + Digits(n);
    && marker in Snapshot(r, entries, |entries|)
    && Snapshot(r, entries, |entries|)[marker]
       == map["reason" := Text("duplicate_business_identity"), "key" := Text(key)]
  }

  lemma RepeatCollides(r: Reading, entries: seq<Entry>, i: nat, j: nat)
    requires i < |entries| && j < |entries| && i != j && entries[j].key == entries[i].key
    requires !("unresolved:" <= entries[i].key)
    requires !ManyToOne(entries[i].key) || !Agree(r, entries[i].value, entries[j].value)
    ensures Collides(r, entries, entries[i]) && Landing(r, entries, i) == CollisionKey(Collisions(r, entries, i) + 1)
    ensures Landed(r, entries, i) == Duplicate(entries[i].key)
  {
    hide Agree, ValuesAt, ManyToOne, Digits, Collisions;
    if i < j {
      TwoAreTwo(entries, i, j);
    } else {
      TwoAreTwo(entries, j, i);
    }
    if Collapses(r, entries, entries[i].key) {
      CollapsedAgree(r, entries, i, j);
    }
  }

  /** What lands under a key no other entry lands under stays there. */
  lemma {:induction false} LandedStays(r: Reading, entries: seq<Entry>, i: nat, n: nat)
    requires WellMarked(entries) && i < n <= |entries| && Collides(r, entries, entries[i])
    ensures Landing(r, entries, i) in Snapshot(r, entries, n)
    ensures Snapshot(r, entries, n)[Landing(r, entries, i)] == Landed(r, entries, i)
    decreases n
  {
    hide Landing, Landed, Collapses, ValuesAt;
    if n == i + 1 {
    } else {
      LandedStays(r, entries, i, n - 1);
      if Landing(r, entries, n - 1) == Landing(r, entries, i) {
        LandingsApart(r, entries, i, n - 1);
      }
    }
  }

  // ---- What the report says of a key ----

  /** The one finding about a key that is no marker: named twice by the baseline, not at all, or once; and then not
      adjudicated, not observed, different, or as the baseline records it. */
  lemma ReportSays(r: Reading, actual: map<string, Fields>, baseline: seq<BaselineEntry>, f: Finding)
    requires Reported(r, actual, baseline, f) && !("unresolved:" <= f.key)
    ensures f.reason == Some("DUPLICATE_BASELINE_KEY") <==>
              exists i, j :: 0 <= i < j < |baseline| && baseline[i].key == f.key && baseline[j].key == f.key
    ensures f.reason == Some("MISSING_BASELINE_ENTRY") <==> forall b :: b in baseline ==> b.key != f.key
    ensures f.reason.None? <==> f.outcome != "UNRESOLVED"
    ensures f.reason == Some("MISSING_BASELINE_ENTRY") ==> f.key in actual && f.actual == Some(actual[f.key])
    ensures f.reason != Some("DUPLICATE_BASELINE_KEY") && f.reason != Some("MISSING_BASELINE_ENTRY") ==>
              exists b :: b in baseline && SaysOfOne(r, actual, b, f)
  {
    hide Agree, Differing;
    if Repeated(baseline, f.key) {
      RepeatedIsNamed(baseline, f.key);
      OnlyRepeated(r, actual, baseline, f);
    } else if Names(baseline, f.key) {
      var b :| b in baseline && f == Adjudicate(r, actual, b);
      AdjudicatedSays(r, actual, b);
    } else {
      UnnamedIs(r, actual, baseline, f);
    }
  }

  lemma OnlyRepeated(r: Reading, actual: map<string, Fields>, baseline: seq<BaselineEntry>, f: Finding)
    requires Reported(r, actual, baseline, f) && !Unresolved(f.key) && Repeated(baseline, f.key)
    ensures f == RepeatedFinding(actual, f.key)
  {
    hide Agree, Differing, Adjudicate;
    RepeatedIsNamed(baseline, f.key);
  }

  /** What is said of a key that one baseline entry names. */
  ghost predicate SaysOfOne(r: Reading, actual: map<string, Fields>, b: BaselineEntry, f: Finding) {
    var adjudicated := b.outcome == Some("MATCH") || b.outcome == Some("BEL_CORRECTED_LEGACY");
    && f.key == b.key && f.recorded == b.outcome
    && (f.reason == Some("UNADJUDICATED_OUTCOME") <==> !adjudicated)
    && (f.reason == Some("MISSING_ACTUAL") <==> adjudicated && b.key !in actual)
    && (f.reason == Some("VALUE_MISMATCH") <==> adjudicated && b.key in actual && !Agree(r, actual[b.key], b.expected))
    && (f.reason == Some("VALUE_MISMATCH") ==> f.actual == Some(actual[b.key]) && f.differing != {})
    && (f.reason == Some("VALUE_MISMATCH") ==> forall k ::
          k in f.differing <==>
            || (k in b.expected && k !in actual[b.key]) || (k !in b.expected && k in actual[b.key])
            || (k in b.expected && k in actual[b.key]
                 && !Agree(r, map[k := actual[b.key][k]], map[k := b.expected[k]])))
    && (f.reason.Some? ==> f.expected == Some(b.expected))
    && (f.reason.None? ==> adjudicated && f.outcome == b.outcome.value)
  }

  lemma AdjudicatedSays(r: Reading, actual: map<string, Fields>, b: BaselineEntry)
    requires !Unresolved(b.key)
    ensures SaysOfOne(r, actual, b, Adjudicate(r, actual, b))
    ensures Adjudicate(r, actual, b).reason.None? <==> Adjudicate(r, actual, b).outcome != "UNRESOLVED"
    ensures Adjudicate(r, actual, b).reason !in {Some("DUPLICATE_BASELINE_KEY"), Some("MISSING_BASELINE_ENTRY")}
  {
    hide Agree, Differing;
    var f := Adjudicate(r, actual, b);
    if f.reason == Some("VALUE_MISMATCH") {
      DifferingExplains(r, actual[b.key], b.expected);
      forall k
        ensures k in f.differing <==>
                  || (k in b.expected && k !in actual[b.key]) || (k !in b.expected && k in actual[b.key])
                  || (k in b.expected && k in actual[b.key]
                      && !Agree(r, map[k := actual[b.key][k]], map[k := b.expected[k]]))
      {
        DiffersAlone(r, actual[b.key], b.expected, k);
      }
    }
  }

  lemma DiffersAlone(r: Reading, a: Fields, b: Fields, k: string)
    ensures k in Differing(r, a, b) <==>
              || (k in b && k !in a) || (k !in b && k in a)
              || (k in b && k in a && !Agree(r, map[k := a[k]], map[k := b[k]]))
  {
    hide Equal;
    if k in a && k in b {
      SingleField(r, map[k := a[k]], map[k := b[k]], k);
    }
  }

  lemma SingleField(r: Reading, a: Fields, b: Fields, k: string)
    requires a.Keys == b.Keys == {k}
    ensures Agree(r, a, b) <==> Equal(Normal(r, Some(k), a[k]), Normal(r, Some(k), b[k]))
  {
    NormalKeepsKind(r, None, Obj(a));
    NormalKeepsKind(r, None, Obj(b));
  }
}
