/** The snapshot of observed facts: repeats collapse only where a repeat is legal and all of them agree. */
module Snapshots {
  import opened Sequences
  import opened Values

  type Fields = map<string, Value>

  datatype Entry = Entry(key: string, value: Fields)

  const UNRESOLVED := "unresolved:"
  const COLLISION := "unresolved:duplicate_identity:"

  predicate Unresolved(key: string) { UNRESOLVED <= key }

  /** The namespaces in which one fact may be observed once per linked contract. */
  predicate ManyToOne(key: string) {
    "sales_contract:" <= key || "sales_invoice_allocation:" <= key || "incoming_receipt_allocation:" <= key
  }

  // ---- Numerals ----

  function Digits(n: nat): (s: string)
    ensures s != "" && forall c :: c in s ==> c != ':'
  {
    var d := ["0", "1", "2", "3", "4", "5", "6", "7", "8", "9"][n % 10];
    if n < 10 then d else Digits(n / 10) + d
  }

  lemma {:induction false} DigitsDiffer(m: nat, n: nat)
    requires Digits(m) == Digits(n)
    ensures m == n
  {
    var a, b := Digits(m), Digits(n);
    assert a[|a| - 1] == b[|b| - 1];
    assert m % 10 == n % 10;
    if m >= 10 && n >= 10 {
      assert a[..|a| - 1] == Digits(m / 10) && b[..|b| - 1] == Digits(n / 10);
      DigitsDiffer(m / 10, n / 10);
    } else {
      assert m < 10 ==> |a| == 1;
      assert n < 10 ==> |b| == 1;
      assert m >= 10 ==> |a| > 1;
      assert n >= 10 ==> |b| > 1;
    }
  }

  function CollisionKey(n: nat): string { COLLISION + Digits(n) }

  function MarkerKey(category: string, n: nat): string { UNRESOLVED + category + ":" + Digits(n) }

  // ---- What the builder makes of its entries ----

  function ValuesAt(entries: seq<Entry>, key: string): seq<Fields> {
    Map(Keep(entries, (e: Entry) => e.key == key), (e: Entry) => e.value)
  }

  /** The repeats of a key that collapse into one. */
  predicate Collapses(r: Reading, entries: seq<Entry>, key: string) {
    var values := ValuesAt(entries, key);
    |values| >= 2 && ManyToOne(key) && forall i :: 1 <= i < |values| ==> Agree(r, values[i], values[0])
  }

  predicate Collides(r: Reading, entries: seq<Entry>, e: Entry) {
    !Unresolved(e.key) && |ValuesAt(entries, e.key)| > 1 && !Collapses(r, entries, e.key)
  }

  function Duplicate(key: string): Fields {
    map["reason" := Text("duplicate_business_identity"), "key" := Text(key)]
  }

  function Collisions(r: Reading, entries: seq<Entry>, n: nat): nat
    requires n <= |entries|
  {
    if n == 0 then 0 else Collisions(r, entries, n - 1) + (if Collides(r, entries, entries[n - 1]) then 1 else 0)
  }

  /** The key under which the i-th entry lands in the snapshot, and its value there. */
  function Landing(r: Reading, entries: seq<Entry>, i: nat): string
    requires i < |entries|
  {
    if Collides(r, entries, entries[i]) then CollisionKey(Collisions(r, entries, i) + 1) else entries[i].key
  }

  function Landed(r: Reading, entries: seq<Entry>, i: nat): Fields
    requires i < |entries|
  {
    if Collides(r, entries, entries[i]) then Duplicate(entries[i].key) else entries[i].value
  }

  function Snapshot(r: Reading, entries: seq<Entry>, n: nat): map<string, Fields>
    requires n <= |entries|
  {
    if n == 0 then map[] else Snapshot(r, entries, n - 1)[Landing(r, entries, n - 1) := Landed(r, entries, n - 1)]
  }

  // ---- What a snapshot holds ----

  lemma {:induction false} KeysAreLandings(r: Reading, entries: seq<Entry>, n: nat)
    requires n <= |entries|
    ensures forall key :: key in Snapshot(r, entries, n) <==> exists i :: 0 <= i < n && Landing(r, entries, i) == key
  {
    hide Landing, Landed;
    if n == 0 {
    } else {
      KeysAreLandings(r, entries, n - 1);
    }
  }

  lemma ValuesAtIs(entries: seq<Entry>, i: nat)
    requires i < |entries|
    ensures entries[i].value in ValuesAt(entries, entries[i].key)
  {
    var own := Keep(entries, (e: Entry) => e.key == entries[i].key);
    assert entries[i] in own;
    var j :| 0 <= j < |own| && own[j] == entries[i];
    assert ValuesAt(entries, entries[i].key)[j] == entries[i].value;
  }

  lemma ValuesAtNext(entries: seq<Entry>, i: nat, key: string)
    requires i < |entries|
    ensures ValuesAt(entries[..i + 1], key)
         == if entries[i].key == key then ValuesAt(entries[..i], key) + [entries[i].value]
              else ValuesAt(entries[..i], key)
  {
    assert entries[..i + 1][..i] == entries[..i];
  }

  lemma {:induction false} TwoAreTwo(entries: seq<Entry>, i: nat, j: nat)
    requires i < j < |entries| && entries[i].key == entries[j].key
    ensures |ValuesAt(entries, entries[i].key)| >= 2
  {
    hide ValuesAt;
    var n := |entries| - 1;
    ValuesAtNext(entries, n, entries[i].key);
    assert entries[..n + 1] == entries;
    if j < n {
      TwoAreTwo(entries[..n], i, j);
    } else {
      ValuesAtIs(entries[..n], i);
    }
  }

  /** Every value under a collapsing key agrees with every other. */
  lemma CollapsedAgree(r: Reading, entries: seq<Entry>, i: nat, j: nat)
    requires i < |entries| && j < |entries| && entries[i].key == entries[j].key && Collapses(r, entries, entries[i].key)
    ensures Agree(r, entries[i].value, entries[j].value)
  {
    hide Agree;
    var values := ValuesAt(entries, entries[i].key);
    ValuesAtIs(entries, i);
    ValuesAtIs(entries, j);
    var a :| 0 <= a < |values| && values[a] == entries[i].value;
    var b :| 0 <= b < |values| && values[b] == entries[j].value;
    AgreeIsEquivalence(r, values[0], values[b], values[b]);
    AgreeIsEquivalence(r, values[b], values[0], values[0]);
    AgreeIsEquivalence(r, values[a], values[0], values[b]);
  }

  /** Under a key that is not a marker the snapshot holds the last entry of that key, and all of them agree with it. */
  lemma {:induction false} HeldValue(r: Reading, entries: seq<Entry>, n: nat, key: string)
    requires n <= |entries| && key in Snapshot(r, entries, n) && !Unresolved(key)
    ensures exists i ::
              && 0 <= i < n && entries[i].key == key && !Collides(r, entries, entries[i])
              && Snapshot(r, entries, n)[key] == entries[i].value
  {
    hide Collides, Collisions, Digits;
    if Landing(r, entries, n - 1) == key {
      assert !Collides(r, entries, entries[n - 1]);
    } else {
      HeldValue(r, entries, n - 1, key);
    }
  }

  /** Every observation agrees with what the snapshot holds under its key, if it holds that key. */
  lemma ObservationsAgree(r: Reading, entries: seq<Entry>, i: nat)
    requires i < |entries| && !Unresolved(entries[i].key) && entries[i].key in Snapshot(r, entries, |entries|)
    ensures Agree(r, entries[i].value, Snapshot(r, entries, |entries|)[entries[i].key])
  {
    hide Agree, Snapshot, Collapses, ValuesAt;
    var key := entries[i].key;
    HeldValue(r, entries, |entries|, key);
    var j :| 0 <= j < |entries| && entries[j].key == key && !Collides(r, entries, entries[j])
      && Snapshot(r, entries, |entries|)[key] == entries[j].value;
    if i == j {
      AgreeIsEquivalence(r, entries[i].value, entries[i].value, entries[i].value);
    } else {
      if i < j {
        TwoAreTwo(entries, i, j);
      } else {
        TwoAreTwo(entries, j, i);
      }
      CollapsedAgree(r, entries, i, j);
    }
  }

  /** A snapshot is free of markers exactly when no entry is one and every repeat collapses. */
  lemma NoMarkers(r: Reading, entries: seq<Entry>)
    ensures (forall key :: key in Snapshot(r, entries, |entries|) ==> !Unresolved(key))
       <==> (forall e :: e in entries ==> !Unresolved(e.key) && !Collides(r, entries, e))
  {
    hide Snapshot, Collides;
    var s := Snapshot(r, entries, |entries|);
    KeysAreLandings(r, entries, |entries|);
    if forall key :: key in s ==> !Unresolved(key) {
      forall e | e in entries
        ensures !Unresolved(e.key) && !Collides(r, entries, e)
      {
        var i :| 0 <= i < |entries| && entries[i] == e;
        assert Landing(r, entries, i) in s;
        CollisionKeysAreMarkers(Collisions(r, entries, i) + 1);
      }
    }
  }

  lemma CollisionKeysAreMarkers(n: nat)
    ensures Unresolved(CollisionKey(n))
  {
    assert CollisionKey(n)[..|UNRESOLVED|] == UNRESOLVED;
  }

  // ---- Nothing is overwritten ----

  /** Markers are numbered in the order they were added, under categories of their own. */
  ghost predicate WellMarked(entries: seq<Entry>) {
    && (forall i, j :: 0 <= i < j < |entries| && Unresolved(entries[i].key) && Unresolved(entries[j].key) ==>
          entries[i].key != entries[j].key)
    && (forall e :: e in entries && Unresolved(e.key) ==> !(COLLISION <= e.key))
  }

  lemma {:induction false} CollisionsGrow(r: Reading, entries: seq<Entry>, i: nat, j: nat)
    requires i < j <= |entries|
    ensures Collisions(r, entries, i) + (if Collides(r, entries, entries[i]) then 1 else 0) <= Collisions(r, entries, j)
  {
    hide Collides;
    if i == j - 1 {
    } else {
      CollisionsGrow(r, entries, i, j - 1);
    }
  }

  /** Two entries share a place in the snapshot only when they are repeats of a key that collapse. */
  lemma LandingsApart(r: Reading, entries: seq<Entry>, i: nat, j: nat)
    requires WellMarked(entries) && i < j < |entries| && Landing(r, entries, i) == Landing(r, entries, j)
    ensures entries[i].key == entries[j].key && Collapses(r, entries, entries[i].key)
  {
    hide Collapses, ValuesAt, Digits, Collisions;
    var x, y := entries[i], entries[j];
    CollisionsGrow(r, entries, i, j);
    if Collides(r, entries, x) && Collides(r, entries, y) {
      var m, n := Collisions(r, entries, i) + 1, Collisions(r, entries, j) + 1;
      assert CollisionKey(m)[|COLLISION|..] == Digits(m) && CollisionKey(n)[|COLLISION|..] == Digits(n);
      DigitsDiffer(m, n);
    } else if Collides(r, entries, x) {
      CollisionKeysAreMarkers(Collisions(r, entries, i) + 1);
    } else if Collides(r, entries, y) {
      CollisionKeysAreMarkers(Collisions(r, entries, j) + 1);
    } else {
      TwoAreTwo(entries, i, j);
    }
  }

  // ---- The builder's tables ----

  ghost predicate Grouped(grouped: map<string, seq<Fields>>, entries: seq<Entry>) {
    forall key: string :: ValuesAt(entries, key) == if key in grouped then grouped[key] else []
  }

  lemma GroupedNone()
    ensures Grouped(map[], [])
  {
  }

  lemma GroupedNext(grouped: map<string, seq<Fields>>, entries: seq<Entry>, i: nat)
    requires i < |entries| && Grouped(grouped, entries[..i])
    ensures var e := entries[i];
            Grouped(grouped[e.key := (if e.key in grouped then grouped[e.key] else []) + [e.value]], entries[..i + 1])
  {
    hide ValuesAt;
    var e := entries[i];
    var next := grouped[e.key := (if e.key in grouped then grouped[e.key] else []) + [e.value]];
    forall key: string
      ensures ValuesAt(entries[..i + 1], key) == if key in next then next[key] else []
    {
      ValuesAtNext(entries, i, key);
      assert ValuesAt(entries[..i], key) == if key in grouped then grouped[key] else [];
    }
  }

  lemma GroupedGives(grouped: map<string, seq<Fields>>, entries: seq<Entry>, key: string)
    requires Grouped(grouped, entries)
    ensures key in grouped ==> grouped[key] == ValuesAt(entries, key)
    ensures key !in grouped ==> ValuesAt(entries, key) == []
  {
    assert ValuesAt(entries, key) == if key in grouped then grouped[key] else [];
  }

  ghost predicate Counted(counts: map<string, nat>, entries: seq<Entry>) {
    forall key: string :: |ValuesAt(entries, key)| == if key in counts then counts[key] else 0
  }

  lemma CountedNone()
    ensures Counted(map[], [])
  {
  }

  lemma CountedNext(counts: map<string, nat>, entries: seq<Entry>, i: nat)
    requires i < |entries| && Counted(counts, entries[..i])
    ensures var e := entries[i];
        Counted(counts[e.key := (if e.key in counts then counts[e.key] else 0) + 1], entries[..i + 1])
  {
    hide ValuesAt;
    var e := entries[i];
    var next := counts[e.key := (if e.key in counts then counts[e.key] else 0) + 1];
    forall key: string
      ensures |ValuesAt(entries[..i + 1], key)| == if key in next then next[key] else 0
    {
      ValuesAtNext(entries, i, key);
      assert |ValuesAt(entries[..i], key)| == if key in counts then counts[key] else 0;
    }
  }

  lemma CountedGives(counts: map<string, nat>, entries: seq<Entry>, i: nat)
    requires i < |entries| && Counted(counts, entries)
    ensures entries[i].key in counts && counts[entries[i].key] == |ValuesAt(entries, entries[i].key)|
  {
    ValuesAtIs(entries, i);
    assert |ValuesAt(entries, entries[i].key)| == if entries[i].key in counts then counts[entries[i].key] else 0;
  }

  // ---- The builder ----

  class SnapshotBuilder {
    var entries: seq<Entry>
    var ordinal: nat

    constructor ()
      ensures entries == [] && Valid()
    {
      entries, ordinal := [], 0;
    }

    /** Every marker was numbered by the counter, no two alike. */
    ghost predicate Valid()
      reads this
    {
      && WellMarked(entries)
      && forall e, n :: e in entries && Unresolved(e.key) && n > ordinal ==> !Numbered(e.key, n)
    }

    method Add(key: string, value: Fields)
      requires Valid() && !Unresolved(key)
      modifies `entries
      ensures Valid() && entries == old(entries) + [Entry(key, value)]
    {
      entries := entries + [Entry(key, value)];
    }

    method AddUnresolved(category: string, reason: string, context: Fields)
      requires Valid() && category != "duplicate_identity" && ':' !in category
      modifies this
      ensures Valid() && ordinal == old(ordinal) + 1
      ensures entries == old(entries) + [Entry(MarkerKey(category, ordinal), map["reason" := Text(reason)] + context)]
    {
      ordinal := ordinal + 1;
      var key := MarkerKey(category, ordinal);
      MarkerIs(category, ordinal);
      entries := entries + [Entry(key, map["reason" := Text(reason)] + context)];
      forall n | n > ordinal
        ensures !Numbered(key, n)
      {
        NumberedOnce(category, ordinal, n);
      }
    }

    method CountKeys() returns (counts: map<string, nat>)
      ensures Counted(counts, entries)
    {
      hide *;
      counts := map[];
      CountedNone();
      for i := 0 to |entries|
        invariant Counted(counts, entries[..i])
      {
        CountedNext(counts, entries, i);
        var key := entries[i].key;
        counts := counts[key := (if key in counts then counts[key] else 0) + 1];
      }
      assert entries[..|entries|] == entries;
    }

    method GroupValues() returns (grouped: map<string, seq<Fields>>)
      ensures Grouped(grouped, entries)
    {
      hide *;
      grouped := map[];
      GroupedNone();
      for i := 0 to |entries|
        invariant Grouped(grouped, entries[..i])
      {
        GroupedNext(grouped, entries, i);
        var e := entries[i];
        grouped := grouped[e.key := (if e.key in grouped then grouped[e.key] else []) + [e.value]];
      }
      assert entries[..|entries|] == entries;
    }

    /** Repeated keys of the many-to-one namespaces whose values all agree with the first. */
    method DedupeEligible(r: Reading) returns (eligible: set<string>)
      ensures forall key :: key in eligible <==> Collapses(r, entries, key)
    {
      hide ValuesAt, Agree, Grouped;
      var grouped := GroupValues();
      eligible := {};
      var rest := grouped.Keys;
      while rest != {}
        invariant rest <= grouped.Keys
        invariant forall key :: key in eligible <==> key in grouped && key !in rest && Collapses(r, entries, key)
        decreases |rest|
      {
        var key :| key in rest;
        rest := rest - {key};
        var values := grouped[key];
        GroupedGives(grouped, entries, key);
        if |values| < 2 || !ManyToOne(key) {
          continue;
        }
        var agree := AgreeWithFirst(r, values);
        if agree {
          eligible := eligible + {key};
        }
      }
      forall key | key !in grouped
        ensures !Collapses(r, entries, key)
      {
        GroupedGives(grouped, entries, key);
      }
    }

    static method AgreeWithFirst(r: Reading, values: seq<Fields>) returns (agree: bool)
      requires |values| >= 2
      ensures agree == forall i :: 1 <= i < |values| ==> Agree(r, values[i], values[0])
    {
      hide *;
      for i := 1 to |values|
        invariant forall j :: 1 <= j < i ==> Agree(r, values[j], values[0])
      {
        if !Agree(r, values[i], values[0]) {
          return false;
        }
      }
      return true;
    }

    /** The second pass: collisions become markers, collapsing repeats overwrite each other. */
    method Build(r: Reading) returns (snapshot: map<string, Fields>)
      ensures snapshot == Snapshot(r, entries, |entries|)
    {
      hide Collapses, ValuesAt, Digits, Counted, Duplicate;
      var counts := CountKeys();
      var eligible := DedupeEligible(r);
      var collisions := 0;
      snapshot := map[];
      for i := 0 to |entries|
        invariant collisions == Collisions(r, entries, i)
        invariant snapshot == Snapshot(r, entries, i)
      {
        CountedGives(counts, entries, i);
        var e := entries[i];
        if Unresolved(e.key) {
          snapshot := snapshot[e.key := e.value];
          continue;
        }
        if counts[e.key] > 1 && e.key !in eligible {
          collisions := collisions + 1;
          snapshot := snapshot[CollisionKey(collisions) := Duplicate(e.key)];
        } else {
          snapshot := snapshot[e.key := e.value];
        }
      }
    }
  }

  ghost predicate Numbered(key: string, n: nat) { exists c :: ':' !in c && key == MarkerKey(c, n) }

  lemma MarkerIs(category: string, n: nat)
    requires category != "duplicate_identity" && ':' !in category
    ensures Unresolved(MarkerKey(category, n)) && !(COLLISION <= MarkerKey(category, n))
      && Numbered(MarkerKey(category, n), n)
  {
    hide Digits;
    var key := MarkerKey(category, n);
    assert key[..|UNRESOLVED|] == UNRESOLVED;
    if COLLISION <= key {
      ThisCategory(category, Digits(n), key[|COLLISION|..]);
    }
  }

  lemma ThisCategory(category: string, n: string, rest: string)
    requires ':' !in category && UNRESOLVED + category + ":" + n == COLLISION + rest
    ensures category == "duplicate_identity"
  {
    var own, u := "duplicate_identity", UNRESOLVED;
    assert COLLISION == u + own + ":";
    assert (u + category + ":" + n)[|u|..] == category + ":" + n;
    assert (u + own + ":" + rest)[|u|..] == own + ":" + rest;
    SplitAtColon(category, n, own, rest);
  }

  /** What precedes the first colon is determined. */
  lemma SplitAtColon(a: string, x: string, b: string, y: string)
    requires ':' !in a && ':' !in b && a + ":" + x == b + ":" + y
    ensures a == b && x == y
  {
    var s, t := a + ":" + x, b + ":" + y;
    assert s[|a|] == ':' && t[|b|] == ':';
    forall k | 0 <= k < |a|
      ensures s[k] != ':'
    {
      assert s[k] == a[k] && a[k] in a;
    }
    forall k | 0 <= k < |b|
      ensures t[k] != ':'
    {
      assert t[k] == b[k] && b[k] in b;
    }
    assert s[..|a|] == a && t[..|b|] == b;
    assert s[|a| + 1..] == x && t[|b| + 1..] == y;
  }

  lemma NumberedOnce(category: string, m: nat, n: nat)
    requires ':' !in category && m != n
    ensures !Numbered(MarkerKey(category, m), n)
  {
    if c :| ':' !in c && MarkerKey(category, m) == MarkerKey(c, n) {
      assert MarkerKey(category, m)[|UNRESOLVED|..] == category + ":" + Digits(m);
      assert MarkerKey(c, n)[|UNRESOLVED|..] == c + ":" + Digits(n);
      SplitAtColon(category, Digits(m), c, Digits(n));
      DigitsDiffer(m, n);
    }
  }
}
