/** Observed and expected values, their normal form, and when two values count as equal. */
module Values {
  import opened Options
  import K = Keys

  /** A JSON-like value; a number keeps the text it was written as. */
  datatype Value =
    | Null
    | Flag(b: bool)
    | Number(value: real, text: string)
    | Text(s: string)
    | Arr(items: seq<Value>)
    | Obj(fields: map<string, Value>)

  /** How a text reads as a decimal, and how a value prints. */
  datatype Reading = Reading(parse: string -> Option<real>, repr: Value -> string)

  const DECIMAL_FIELDS := {
    "gross_amount", "net_amount", "quantity", "unit_price", "allocated_gross_amount", "allocated_amount",
    "allocated_quantity",
    "remaining_quantity", "remaining_estimated_cost", "estimated_cost"}

  function AsDecimal(r: Reading, v: Value): Value {
    var text := if v.Text? then Some(v.s) else if v.Number? then Some(v.text) else None;
    if text.None? then v
    else match r.parse(text.value)
      case None => v
      case Some(x) => Number(x, text.value)
  }

  /** Decimals are read in the decimal fields, at any depth; lists are sorted by how their elements print. */
  function Normal(r: Reading, field: Option<string>, v: Value): Value
    decreases v
  {
    match v
    case Obj(fields) => Obj(map k | k in fields :: Normal(r, Some(k), fields[k]))
    case Arr(items) => Arr(K.SortBy(seq(|items|, i requires 0 <= i < |items| => Normal(r, field, items[i])),
                                    x => [K.Text(r.repr(x))]))
    case _ => if field.Some? && field.value in DECIMAL_FIELDS then AsDecimal(r, v) else v
  }

  /** A truth value counts as the number 0 or 1. */
  function Numeric(v: Value): Option<real> {
    match v
    case Flag(b) => Some(if b then 1.0 else 0.0)
    case Number(x, _) => Some(x)
    case _ => None
  }

  /** Equality of values: numbers by value, not by spelling. */
  predicate Equal(a: Value, b: Value) {
    match a
    case Null => b.Null?
    case Text(s) => b == Text(s)
    case Flag(_) => Numeric(a) == Numeric(b)
    case Number(_, _) => Numeric(a) == Numeric(b)
    case Arr(items) => b.Arr? && |items| == |b.items| && forall i :: 0 <= i < |items| ==> Equal(items[i], b.items[i])
    case Obj(fields) =>
      b.Obj? && fields.Keys == b.fields.Keys && forall k :: k in fields ==> Equal(fields[k], b.fields[k])
  }

  lemma {:induction false} EqualReflexive(a: Value)
    ensures Equal(a, a)
  {
    match a
    case Arr(items) =>
      forall i | 0 <= i < |items|
        ensures Equal(items[i], items[i])
      {
        EqualReflexive(items[i]);
      }
    case Obj(fields) =>
      forall k | k in fields
        ensures Equal(fields[k], fields[k])
      {
        EqualReflexive(fields[k]);
      }
    case _ =>
  }

  lemma {:induction false} EqualSymmetric(a: Value, b: Value)
    requires Equal(a, b)
    ensures Equal(b, a)
  {
    match a
    case Arr(items) =>
      forall i | 0 <= i < |items|
        ensures Equal(b.items[i], items[i])
      {
        EqualSymmetric(items[i], b.items[i]);
      }
    case Obj(fields) =>
      forall k | k in fields
        ensures Equal(b.fields[k], fields[k])
      {
        EqualSymmetric(fields[k], b.fields[k]);
      }
    case _ =>
  }

  lemma {:induction false} EqualTransitive(a: Value, b: Value, c: Value)
    requires Equal(a, b) && Equal(b, c)
    ensures Equal(a, c)
  {
    match a
    case Arr(items) =>
      forall i | 0 <= i < |items|
        ensures Equal(items[i], c.items[i])
      {
        EqualTransitive(items[i], b.items[i], c.items[i]);
      }
    case Obj(fields) =>
      forall k | k in fields
        ensures Equal(fields[k], c.fields[k])
      {
        EqualTransitive(fields[k], b.fields[k], c.fields[k]);
      }
    case _ =>
  }

  /** Two dictionaries of observed fields agree. */
  predicate Agree(r: Reading, a: map<string, Value>, b: map<string, Value>) {
    Equal(Normal(r, None, Obj(a)), Normal(r, None, Obj(b)))
  }

  lemma AgreeIsEquivalence(r: Reading, a: map<string, Value>, b: map<string, Value>, c: map<string, Value>)
    ensures Agree(r, a, a)
    ensures Agree(r, a, b) ==> Agree(r, b, a)
    ensures Agree(r, a, b) && Agree(r, b, c) ==> Agree(r, a, c)
  {
    hide Normal, Equal;
    var x, y, z := Normal(r, None, Obj(a)), Normal(r, None, Obj(b)), Normal(r, None, Obj(c));
    EqualReflexive(x);
    if Equal(x, y) {
      EqualSymmetric(x, y);
    }
    if Equal(x, y) && Equal(y, z) {
      EqualTransitive(x, y, z);
    }
  }

  predicate Differs(r: Reading, a: map<string, Value>, b: map<string, Value>, field: string) {
    (field in a) != (field in b)
    || (field in a && field in b && !Equal(Normal(r, Some(field), a[field]), Normal(r, Some(field), b[field])))
  }

  function Differing(r: Reading, a: map<string, Value>, b: map<string, Value>): set<string> {
    set field | field in a.Keys + b.Keys && Differs(r, a, b, field)
  }

  /** The fields reported as differing are none exactly when the values agree. */
  lemma DifferingExplains(r: Reading, a: map<string, Value>, b: map<string, Value>)
    ensures Agree(r, a, b) <==> Differing(r, a, b) == {}
  {
    var x, y := Normal(r, None, Obj(a)).fields, Normal(r, None, Obj(b)).fields;
    assert x.Keys == a.Keys && y.Keys == b.Keys;
    if Differing(r, a, b) == {} {
      forall k | k in a.Keys + b.Keys
        ensures !Differs(r, a, b, k)
      {
        assert k !in Differing(r, a, b);
      }
    }
  }

  /** A list's normal form does not depend on the order its elements come in, if what prints alike is alike. */
  lemma ListOrderDoesNotMatter(r: Reading, field: Option<string>, a: seq<Value>, b: seq<Value>, x: seq<Value>)
    requires |a| == |b| && x == seq(|a|, i requires 0 <= i < |a| => Normal(r, field, a[i]))
    requires multiset(x) == multiset(seq(|b|, i requires 0 <= i < |b| => Normal(r, field, b[i])))
    requires forall v, w :: v in x && w in x && r.repr(v) == r.repr(w) ==> v == w
    ensures Normal(r, field, Arr(a)) == Normal(r, field, Arr(b))
  {
    var y := seq(|b|, i requires 0 <= i < |b| => Normal(r, field, b[i]));
    K.SortForgetsListing(x, y, (v: Value) => [K.Text(r.repr(v))]);
  }
}
