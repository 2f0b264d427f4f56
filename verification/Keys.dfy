/**
 Sort keys.  The source sorts with tuples of numbers and strings; a key is such a tuple,
 compared position by position, and a string is compared character by character.
 */
module Keys {
  import opened Sequences

  datatype Field = Num(n: int) | Text(t: string)

  type Key = seq<Field>

  predicate StringBefore(a: string, b: string) {
    b != [] && (a == [] || a[0] < b[0] || (a[0] == b[0] && StringBefore(a[1..], b[1..])))
  }

  predicate FieldBefore(a: Field, b: Field) {
    match (a, b)
    case (Num(x), Num(y)) => x < y
    case (Text(x), Text(y)) => StringBefore(x, y)
    case (Num(_), Text(_)) => true
    case (Text(_), Num(_)) => false
  }

  /** The strict order of tuples. */
  predicate Before(a: Key, b: Key) {
    b != [] && (a == [] || FieldBefore(a[0], b[0]) || (a[0] == b[0] && Before(a[1..], b[1..])))
  }

  lemma {:induction false} StringBeforeStrict(a: string, b: string, c: string)
    ensures !(StringBefore(a, b) && StringBefore(b, a))
    ensures StringBefore(a, b) && StringBefore(b, c) ==> StringBefore(a, c)
    ensures a == b || StringBefore(a, b) || StringBefore(b, a)
    decreases |a| + |b| + |c|
  {
    if a == [] || b == [] {
    } else {
      assert a == [a[0]] + a[1..] && b == [b[0]] + b[1..];
      StringBeforeStrict(a[1..], b[1..], if c == [] then [] else c[1..]);
    }
  }

  lemma FieldBeforeStrict(a: Field, b: Field, c: Field)
    ensures !(FieldBefore(a, b) && FieldBefore(b, a))
    ensures FieldBefore(a, b) && FieldBefore(b, c) ==> FieldBefore(a, c)
    ensures a == b || FieldBefore(a, b) || FieldBefore(b, a)
  {
    var text := (f: Field) => if f.Text? then f.t else "";
    StringBeforeStrict(text(a), text(b), text(c));
  }

  /** Tuples are totally ordered: the comparison is asymmetric, transitive and connected. */
  lemma {:induction false} BeforeStrict(a: Key, b: Key, c: Key)
    ensures !(Before(a, b) && Before(b, a))
    ensures Before(a, b) && Before(b, c) ==> Before(a, c)
    ensures a == b || Before(a, b) || Before(b, a)
    decreases |a| + |b| + |c|
  {
    if a == [] || b == [] {
    } else {
      assert a == [a[0]] + a[1..] && b == [b[0]] + b[1..];
      if c == [] {
        FieldBeforeStrict(a[0], b[0], a[0]);
        BeforeStrict(a[1..], b[1..], []);
      } else {
        FieldBeforeStrict(a[0], b[0], c[0]);
        FieldBeforeStrict(b[0], c[0], a[0]);
        BeforeStrict(a[1..], b[1..], c[1..]);
      }
    }
  }

  // ---- Stable sorting by a key ----

  /** No element's key is before the key of an element listed earlier. */
  ghost predicate Ordered<T(!new)>(s: seq<T>, key: T -> Key) {
    forall i, j :: 0 <= i < j < |s| ==> !Before(key(s[j]), key(s[i]))
  }

  /** Insert x behind every element whose key is not after its own. */
  function Insert<T>(s: seq<T>, x: T, key: T -> Key): (r: seq<T>)
    ensures multiset(r) == multiset(s) + multiset{x}
    ensures |r| == |s| + 1
  {
    if s == [] || !Before(key(x), key(s[|s| - 1])) then s + [x]
    else
      assert s == s[..|s| - 1] + [s[|s| - 1]];
      Insert(s[..|s| - 1], x, key) + [s[|s| - 1]]
  }

  function SortBy<T>(s: seq<T>, key: T -> Key): (r: seq<T>)
    ensures multiset(r) == multiset(s)
    ensures |r| == |s|
  {
    if s == [] then []
    else
      assert s == s[..|s| - 1] + [s[|s| - 1]];
      Insert(SortBy(s[..|s| - 1], key), s[|s| - 1], key)
  }

  lemma {:induction false} InsertOrdered<T(!new)>(s: seq<T>, x: T, key: T -> Key)
    requires Ordered(s, key)
    ensures Ordered(Insert(s, x, key), key)
  {
    if s == [] {
    } else if Before(key(x), key(s[|s| - 1])) {
      var front, last := s[..|s| - 1], s[|s| - 1];
      InsertOrdered(front, x, key);
      var r := Insert(front, x, key);
      forall i | 0 <= i < |r|
        ensures !Before(key(last), key(r[i]))
      {
        assert r[i] in multiset(r);
        BeforeStrict(key(x), key(last), key(x));
        if r[i] != x {
          assert r[i] in multiset(front);
          assert r[i] in front;
        }
      }
    } else {
      forall i | 0 <= i < |s|
        ensures !Before(key(x), key(s[i]))
      {
        BeforeStrict(key(x), key(s[i]), key(s[|s| - 1]));
        BeforeStrict(key(s[|s| - 1]), key(s[i]), key(x));
      }
    }
  }

  lemma {:induction false} SortByOrdered<T(!new)>(s: seq<T>, key: T -> Key)
    ensures Ordered(SortBy(s, key), key)
  {
    if s == [] {
    } else {
      SortByOrdered(s[..|s| - 1], key);
      InsertOrdered(SortBy(s[..|s| - 1], key), s[|s| - 1], key);
    }
  }

  /** Different elements of s have different keys. */
  ghost predicate KeysIdentify<T(!new)>(s: seq<T>, key: T -> Key) {
    forall x, y :: x in s && y in s && key(x) == key(y) ==> x == y
  }

  /** There is only one ordered listing of a collection whose keys identify its elements. */
  lemma {:induction false} OrderedUnique<T(!new)>(a: seq<T>, b: seq<T>, key: T -> Key)
    requires multiset(a) == multiset(b)
    requires Ordered(a, key) && Ordered(b, key) && KeysIdentify(a, key)
    ensures a == b
  {
    SameLength(a, b);
    if a == [] {
    } else {
      HeadOfOrdered(a, b, key);
      TailsPermute(a, b);
      forall x | x in a[1..] ensures x in a {}
      OrderedTail(a, key);
      OrderedTail(b, key);
      OrderedUnique(a[1..], b[1..], key);
      assert a == [a[0]] + a[1..] && b == [b[0]] + b[1..];
    }
  }

  lemma OrderedTail<T(!new)>(s: seq<T>, key: T -> Key)
    requires s != [] && Ordered(s, key)
    ensures Ordered(s[1..], key)
  {
  }

  lemma TailsPermute<T>(a: seq<T>, b: seq<T>)
    requires a != [] && b != [] && a[0] == b[0] && multiset(a) == multiset(b)
    ensures multiset(a[1..]) == multiset(b[1..])
  {
    assert a == [a[0]] + a[1..] && b == [b[0]] + b[1..];
    assert multiset(a[1..]) == multiset(a) - multiset{a[0]};
  }

  lemma HeadOfOrdered<T(!new)>(a: seq<T>, b: seq<T>, key: T -> Key)
    requires multiset(a) == multiset(b) && |a| == |b| > 0
    requires Ordered(a, key) && Ordered(b, key) && KeysIdentify(a, key)
    ensures a[0] == b[0]
  {
    assert b[0] in multiset(b) && a[0] in multiset(a);
    assert b[0] in a && a[0] in b;
    var i :| 0 <= i < |a| && a[i] == b[0];
    var j :| 0 <= j < |b| && b[j] == a[0];
    if i > 0 && j > 0 {
      assert !Before(key(a[i]), key(a[0]));
      assert !Before(key(b[j]), key(b[0]));
      BeforeStrict(key(a[0]), key(b[0]), key(a[0]));
    }
  }

  /** Sorting forgets how the repository happened to list the rows. */
  lemma SortForgetsListing<T(!new)>(a: seq<T>, b: seq<T>, key: T -> Key)
    requires multiset(a) == multiset(b) && KeysIdentify(a, key)
    ensures SortBy(a, key) == SortBy(b, key)
  {
    SortByOrdered(a, key);
    SortByOrdered(b, key);
    forall x | x in SortBy(a, key)
      ensures x in a
    {
      assert x in multiset(SortBy(a, key));
    }
    OrderedUnique(SortBy(a, key), SortBy(b, key), key);
  }
}
