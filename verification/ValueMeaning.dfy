/** What it means that two values agree, field by field, and what a passing reconciliation therefore says. */
module ValueMeaning {
  import opened Options
  import opened Sequences
  import opened Values
  import opened Snapshots
  import opened Reconciliation
  import K = Keys

  // ---- Agreement without normal forms ----

  /** The number a value stands for: in a decimal field any text that reads as one counts. */
  function ReadsAs(r: Reading, decimal: bool, v: Value): Option<real> {
    match v
    case Flag(b) => Some(if b then 1.0 else 0.0)
    case Number(x, text) => if decimal && r.parse(text).Some? then r.parse(text) else Some(x)
    case Text(s) => if decimal then r.parse(s) else None
    case _ => None
  }

  function IsDecimal(field: Option<string>): bool { field.Some? && field.value in DECIMAL_FIELDS }

  /** Numbers agree with equal numbers, other texts with the identical text, and null with null. */
  ghost predicate SameScalar(r: Reading, decimal: bool, a: Value, b: Value) {
    if ReadsAs(r, decimal, a).Some? || ReadsAs(r, decimal, b).Some?
      then ReadsAs(r, decimal, a) == ReadsAs(r, decimal, b)
    else (a.Null? && b.Null?) || (a.Text? && b.Text? && a.s == b.s)
  }

  ghost predicate Permutes(order: seq<nat>, n: nat) {
    |order| == n && Distinct(order) && forall i :: 0 <= i < n ==> order[i] < n
  }

  /** Objects agree key by key, lists element by element in some order, anything else as scalars. */
  ghost predicate Means(r: Reading, field: Option<string>, a: Value, b: Value)
    decreases a
  {
    match a
    case Obj(fields) =>
      b.Obj? && b.fields.Keys == fields.Keys && forall k :: k in fields ==> Means(r, Some(k), fields[k], b.fields[k])
    case Arr(items) =>
      && b.Arr? && |b.items| == |items|
      && exists order :: Permutes(order, |items|)
           && forall i :: 0 <= i < |items| ==> Means(r, field, items[i], b.items[order[i]])
    case _ => !b.Obj? && !b.Arr? && SameScalar(r, IsDecimal(field), a, b)
  }

  ghost predicate ListFree(v: Value)
    decreases v
  {
    match v
    case Arr(_) => false
    case Obj(fields) => forall k :: k in fields ==> ListFree(fields[k])
    case _ => true
  }

  lemma ScalarsMean(r: Reading, field: Option<string>, a: Value, b: Value)
    requires !a.Obj? && !a.Arr? && !b.Obj? && !b.Arr?
    ensures Equal(Normal(r, field, a), Normal(r, field, b)) <==> SameScalar(r, IsDecimal(field), a, b)
  {
  }

  lemma NormalKeepsKind(r: Reading, field: Option<string>, a: Value)
    ensures Normal(r, field, a).Obj? <==> a.Obj?
    ensures Normal(r, field, a).Arr? <==> a.Arr?
    ensures a.Obj? ==> Normal(r, field, a).fields.Keys == a.fields.Keys
    ensures a.Obj? ==> forall k :: k in a.fields ==> Normal(r, field, a).fields[k] == Normal(r, Some(k), a.fields[k])
  {
  }

  lemma EqualKeepsKind(a: Value, b: Value)
    requires Equal(a, b)
    ensures (a.Obj? <==> b.Obj?) && (a.Arr? <==> b.Arr?)
  {
  }

  // ---- Lists ----

  lemma {:induction false} SomeOrder<T>(a: seq<T>, b: seq<T>) returns (order: seq<nat>)
    requires multiset(a) == multiset(b)
    ensures Permutes(order, |a|) && |a| == |b|
    ensures forall i :: 0 <= i < |a| ==> a[i] == b[order[i]]
    decreases |a|
  {
    SameLength(a, b);
    if a == [] {
      order := [];
    } else {
      var n := |a| - 1;
      var at := LastElsewhere(a, b);
      var rest := SomeOrder(a[..n], Without(b, at));
      order := seq(n, i requires 0 <= i < n => if rest[i] < at then rest[i] else rest[i] + 1) + [at];
      forall i | 0 <= i < n
        ensures a[i] == b[order[i]]
      {
        assert a[..n][i] == Without(b, at)[rest[i]];
      }
    }
  }

  /** The order in which sorting lists the normal forms of a list. */
  lemma SortedOrder(r: Reading, field: Option<string>, items: seq<Value>) returns (order: seq<nat>)
    ensures Permutes(order, |items|) && Normal(r, field, Arr(items)).Arr?
    ensures |Normal(r, field, Arr(items)).items| == |items|
    ensures forall i :: 0 <= i < |items| ==>
              Normal(r, field, Arr(items)).items[order[i]] == Normal(r, field, items[i])
  {
    var normals := seq(|items|, i requires 0 <= i < |items| => Normal(r, field, items[i]));
    var sorted := Normal(r, field, Arr(items)).items;
    assert multiset(sorted) == multiset(normals);
    order := SomeOrder(normals, sorted);
    forall i | 0 <= i < |items|
      ensures sorted[order[i]] == Normal(r, field, items[i])
    {
      assert normals[i] == sorted[order[i]];
    }
  }

  function Inverse(order: seq<nat>, i: nat): (j: nat)
    requires Permutes(order, |order|) && i < |order|
    ensures j < |order| && order[j] == i
  {
    EveryPlaceTaken(order, i);
    var j: nat :| j < |order| && order[j] == i;
    j
  }

  /** A list of n different numbers below n has each of them. */
  lemma EveryPlaceTaken(order: seq<nat>, i: nat)
    requires Permutes(order, |order|) && i < |order|
    ensures exists j: nat :: j < |order| && order[j] == i
  {
    if !exists j: nat :: j < |order| && order[j] == i {
      var places, taken := Below(|order|), set x | x in order;
      DistinctSize(order, taken);
      assert taken <= places - {i};
      SubsetSize(taken, places - {i});
    }
  }

  lemma {:induction false} DistinctSize(s: seq<nat>, x: set<nat>)
    requires Distinct(s) && forall e :: e in x <==> e in s
    ensures |x| == |s|
  {
    if s == [] {
      assert x == {};
    } else {
      var n := |s| - 1;
      assert s[n] in s && s[n] !in s[..n];
      assert forall e :: e in s <==> e in s[..n] || e == s[n];
      DistinctSize(s[..n], x - {s[n]});
    }
  }

  function Below(n: nat): (x: set<nat>)
    ensures |x| == n && forall e: nat :: e in x <==> e < n
  {
    if n == 0 then {} else Below(n - 1) + {n - 1}
  }

  lemma {:induction false} SubsetSize(x: set<nat>, y: set<nat>)
    requires x <= y
    ensures |x| <= |y|
  {
    if x == {} {
    } else {
      var e :| e in x;
      SubsetSize(x - {e}, y - {e});
    }
  }

  /** Two lists with equal normal forms match element by element. */
  lemma EqualListsMatch(r: Reading, field: Option<string>, a: seq<Value>, b: seq<Value>) returns (order: seq<nat>)
    requires Equal(Normal(r, field, Arr(a)), Normal(r, field, Arr(b)))
    ensures |a| == |b| && Permutes(order, |a|)
    ensures forall i :: 0 <= i < |a| ==> Equal(Normal(r, field, a[i]), Normal(r, field, b[order[i]]))
  {
    var x := SortedOrder(r, field, a);
    var y := SortedOrder(r, field, b);
    hide Normal;
    order := seq(|a|, i requires 0 <= i < |a| => Inverse(y, x[i]));
    forall i, j | 0 <= i < j < |a|
      ensures order[i] != order[j]
    {
      assert y[order[i]] == x[i] && y[order[j]] == x[j];
    }
    forall i | 0 <= i < |a|
      ensures Equal(Normal(r, field, a[i]), Normal(r, field, b[order[i]]))
    {
      assert y[order[i]] == x[i];
    }
  }

  // ---- Agreement means just that ----

  lemma {:induction false} EqualMeans(r: Reading, field: Option<string>, a: Value, b: Value)
    requires Equal(Normal(r, field, a), Normal(r, field, b))
    ensures Means(r, field, a, b)
    decreases a
  {
    NormalKeepsKind(r, field, a);
    NormalKeepsKind(r, field, b);
    EqualKeepsKind(Normal(r, field, a), Normal(r, field, b));
    match a
    case Obj(fields) =>
      forall k | k in fields
        ensures Means(r, Some(k), fields[k], b.fields[k])
      {
        EqualMeans(r, Some(k), fields[k], b.fields[k]);
      }
    case Arr(items) =>
      var order := EqualListsMatch(r, field, items, b.items);
      forall i | 0 <= i < |items|
        ensures Means(r, field, items[i], b.items[order[i]])
      {
        EqualMeans(r, field, items[i], b.items[order[i]]);
      }
    case _ => ScalarsMean(r, field, a, b);
  }

  lemma {:induction false} MeansEqual(r: Reading, field: Option<string>, a: Value, b: Value)
    requires Means(r, field, a, b) && ListFree(a)
    ensures Equal(Normal(r, field, a), Normal(r, field, b))
    decreases a
  {
    NormalKeepsKind(r, field, a);
    NormalKeepsKind(r, field, b);
    match a
    case Obj(fields) =>
      forall k | k in fields
        ensures Equal(Normal(r, field, a).fields[k], Normal(r, field, b).fields[k])
      {
        MeansEqual(r, Some(k), fields[k], b.fields[k]);
      }
    case _ => ScalarsMean(r, field, a, b);
  }

  /** Two dictionaries agree only if they have the same keys and each field means the same in both; and without lists
      exactly then. */
  lemma AgreeExactly(r: Reading, a: Fields, b: Fields)
    ensures Agree(r, a, b) ==> a.Keys == b.Keys && forall k :: k in a ==> Means(r, Some(k), a[k], b[k])
    ensures (forall k :: k in a ==> ListFree(a[k])) ==>
              (Agree(r, a, b) <==> a.Keys == b.Keys && forall k :: k in a ==> Means(r, Some(k), a[k], b[k]))
  {
    hide Normal, Equal;
    if Agree(r, a, b) {
      EqualMeans(r, None, Obj(a), Obj(b));
    }
    if (forall k :: k in a ==> ListFree(a[k])) && a.Keys == b.Keys
      && forall k :: k in a ==> Means(r, Some(k), a[k], b[k]) {
      MeansEqual(r, None, Obj(a), Obj(b));
    }
  }

  /** The two lists match one to one in the given order. */
  ghost predicate Matched(x: seq<Value>, y: seq<Value>, order: seq<nat>) {
    |x| == |y| && Permutes(order, |x|) && forall i :: 0 <= i < |x| ==> Equal(x[i], y[order[i]])
  }

  function Normals(r: Reading, field: Option<string>, items: seq<Value>): (x: seq<Value>)
    ensures |x| == |items|
  {
    seq(|items|, i requires 0 <= i < |items| => Normal(r, field, items[i]))
  }

  /** Elements print alike just when they are equal. */
  ghost predicate PrintsTell(r: Reading, x: seq<Value>, y: seq<Value>) {
    forall v, w :: v in x + y && w in x + y ==> (r.repr(v) == r.repr(w) <==> Equal(v, w))
  }

  function Printed(r: Reading): Value -> K.Key { (v: Value) => [K.Text(r.repr(v))] }

  lemma NormalOfList(r: Reading, field: Option<string>, items: seq<Value>)
    ensures Normal(r, field, Arr(items)) == Arr(K.SortBy(Normals(r, field, items), Printed(r)))
  {
    assert Printed(r) == (x => [K.Text(r.repr(x))]);
  }

  /** Lists whose elements print alike just when they are equal agree exactly when they match in some order. */
  lemma ListsAgreeExactly(r: Reading, field: Option<string>, a: seq<Value>, b: seq<Value>)
    requires PrintsTell(r, Normals(r, field, a), Normals(r, field, b))
    ensures Equal(Normal(r, field, Arr(a)), Normal(r, field, Arr(b))) <==>
              exists order :: Matched(Normals(r, field, a), Normals(r, field, b), order)
  {
    hide Normal, Equal, K.SortBy, PrintsTell;
    var x, y := Normals(r, field, a), Normals(r, field, b);
    if Equal(Normal(r, field, Arr(a)), Normal(r, field, Arr(b))) {
      var order := EqualListsMatch(r, field, a, b);
      forall i | 0 <= i < |x|
        ensures Equal(x[i], y[order[i]])
      {
      }
      assert Matched(x, y, order);
    }
    if order :| Matched(x, y, order) {
      MatchedSortAlike(r, x, y, order);
      NormalOfList(r, field, a);
      NormalOfList(r, field, b);
      EqualLists(K.SortBy(x, Printed(r)), K.SortBy(y, Printed(r)));
    }
  }

  lemma EqualLists(u: seq<Value>, v: seq<Value>)
    requires |u| == |v| && forall i :: 0 <= i < |u| ==> Equal(u[i], v[i])
    ensures Equal(Arr(u), Arr(v))
  {
  }

  function Prints(r: Reading, s: seq<Value>): seq<string> {
    Map(s, (v: Value) => r.repr(v))
  }

  lemma MatchedSortAlike(r: Reading, x: seq<Value>, y: seq<Value>, order: seq<nat>)
    requires Matched(x, y, order) && PrintsTell(r, x, y)
    ensures forall i :: 0 <= i < |x| ==> Equal(K.SortBy(x, Printed(r))[i], K.SortBy(y, Printed(r))[i])
  {
    hide Equal, Permutes, K.SortBy;
    var u, v := K.SortBy(x, Printed(r)), K.SortBy(y, Printed(r));
    SamePrints(r, x, y, order);
    MapForgetsListing(x, u, (v: Value) => r.repr(v));
    MapForgetsListing(y, v, (v: Value) => r.repr(v));
    PrintsOrdered(r, x);
    PrintsOrdered(r, y);
    TextsIdentify(Prints(r, u));
    K.OrderedUnique(Prints(r, u), Prints(r, v), (s: string) => [K.Text(s)]);
    forall i | 0 <= i < |x|
      ensures Equal(u[i], v[i])
    {
      assert u[i] in multiset(x) && v[i] in multiset(y);
      assert u[i] in x + y && v[i] in x + y;
      assert Prints(r, u)[i] == Prints(r, v)[i];
    }
  }

  lemma TextsIdentify(s: seq<string>)
    ensures K.KeysIdentify(s, (t: string) => [K.Text(t)])
  {
    var id := (t: string) => [K.Text(t)];
    forall t, u | t in s && u in s && id(t) == id(u)
      ensures t == u
    {
      assert id(t)[0] == id(u)[0];
    }
  }

  lemma PrintsOrdered(r: Reading, s: seq<Value>)
    ensures K.Ordered(Prints(r, K.SortBy(s, Printed(r))), (t: string) => [K.Text(t)])
  {
    hide K.Before;
    K.SortByOrdered(s, Printed(r));
  }

  lemma SamePrints(r: Reading, x: seq<Value>, y: seq<Value>, order: seq<nat>)
    requires Matched(x, y, order) && PrintsTell(r, x, y)
    ensures multiset(Prints(r, x)) == multiset(Prints(r, y))
  {
    hide Equal;
    var a, b := Prints(r, x), Prints(r, y);
    forall i | 0 <= i < |x|
      ensures a[i] == b[order[i]]
    {
      assert x[i] in x + y && y[order[i]] in x + y;
    }
    OrderedAlike(a, b, order);
  }

  lemma {:induction false} OrderedAlike(a: seq<string>, b: seq<string>, order: seq<nat>)
    requires |a| == |b| && Permutes(order, |a|) && forall i :: 0 <= i < |a| ==> a[i] == b[order[i]]
    ensures multiset(a) == multiset(b)
    decreases |a|
  {
    if a == [] {
    } else {
      var n := |a| - 1;
      var at := order[n];
      var rest := seq(n, i requires 0 <= i < n => if order[i] < at then order[i] else order[i] - 1);
      forall i, j | 0 <= i < j < n
        ensures rest[i] != rest[j]
      {
        assert order[i] != order[j] && order[i] != at && order[j] != at;
      }
      forall i | 0 <= i < n
        ensures rest[i] < n && a[..n][i] == Without(b, at)[rest[i]]
      {
        assert order[i] != at;
      }
      OrderedAlike(a[..n], Without(b, at), rest);
      WithoutCounts(b, at);
      assert a == a[..n] + [a[n]];
    }
  }

  // ---- What a passing run says of each observed field ----

  /** The baseline states this field of an observation: the identical text, the same number, or nothing. */
  ghost predicate Stated(r: Reading, field: string, v: Value, w: Value) {
    && (v.Text? && field !in DECIMAL_FIELDS ==> w == v)
    && (v.Text? && field in DECIMAL_FIELDS && r.parse(v.s).None? ==> w == v)
    && (v.Text? && field in DECIMAL_FIELDS && r.parse(v.s).Some? ==> ReadsAs(r, true, w) == r.parse(v.s))
    && (v.Null? ==> w.Null?)
    && (v.Obj? <==> w.Obj?) && (v.Arr? <==> w.Arr?)
  }

  /** When a run passes, every observation has exactly the fields its baseline entry expects, and each states the same:
      a text field the identical text, a decimal field the same number. */
  lemma PassStatesEveryField(r: Reading, entries: seq<Entry>, baseline: seq<BaselineEntry>, e: Entry)
    requires ObservationsReconciled(r, entries, baseline) && e in entries
    ensures exists b ::
              && b in baseline && b.key == e.key && b.expected.Keys == e.value.Keys
              && forall k :: k in e.value ==> Means(r, Some(k), e.value[k], b.expected[k])
                                              && Stated(r, k, e.value[k], b.expected[k])
  {
    hide Agree, Means;
    var b :| b in baseline && b.key == e.key && Agree(r, e.value, b.expected);
    AgreeExactly(r, e.value, b.expected);
    forall k | k in e.value
      ensures Stated(r, k, e.value[k], b.expected[k])
    {
      MeansStates(r, k, e.value[k], b.expected[k]);
    }
  }

  lemma MeansStates(r: Reading, field: string, v: Value, w: Value)
    requires Means(r, Some(field), v, w)
    ensures Stated(r, field, v, w)
  {
  }

  /** Leading zeros matter in a contract's number, and not in an amount. */
  lemma ZerosMatterInTexts(r: Reading)
    requires r.parse("00123") == Some(123.0) && r.parse("123") == Some(123.0)
    ensures !Agree(r, map["contract_no" := Text("00123")], map["contract_no" := Text("123")])
    ensures Agree(r, map["gross_amount" := Text("00123")], map["gross_amount" := Text("123")])
  {
    hide Agree;
    var a, b := map["contract_no" := Text("00123")], map["contract_no" := Text("123")];
    AgreeExactly(r, a, b);
    assert "00123" != "123" && "contract_no" in a;
    var x, y := map["gross_amount" := Text("00123")], map["gross_amount" := Text("123")];
    AgreeExactly(r, x, y);
    assert x.Keys == y.Keys;
  }
}
