/** The canonical form of a JSON-like value: object keys in order, undefined fields dropped. */
module CanonicalForm {
  import opened Sequences

  datatype Value =
    | Undefined | Null | Bool(b: bool) | Num(n: real) | Str(s: string)
    | Arr(items: seq<Value>)
    | Obj(fields: seq<Field>)
  datatype Field = Field(key: string, value: Value)

  // ---- the order of keys --------------------------------------------------------------------

  /** The strict dictionary order. */
  predicate Less(a: string, b: string) {
    b != "" && (a == "" || a[0] < b[0] || (a[0] == b[0] && Less(a[1..], b[1..])))
  }

  lemma {:induction false} LessIsTotal(a: string, b: string)
    ensures a == b || Less(a, b) || Less(b, a)
    ensures !(Less(a, b) && Less(b, a)) && (a == b ==> !Less(a, b))
    decreases |a|
  {
    if a != "" && b != "" {
      LessIsTotal(a[1..], b[1..]);
      assert a == [a[0]] + a[1..] && b == [b[0]] + b[1..];
    }
  }

  lemma {:induction false} LessIsTransitive(a: string, b: string, c: string)
    requires Less(a, b) && Less(b, c)
    ensures Less(a, c)
    decreases |a|
  {
    if a != "" && a[0] == b[0] == c[0] {
      LessIsTransitive(a[1..], b[1..], c[1..]);
    }
  }

  ghost predicate Sorted(fields: seq<Field>) {
    forall i, j :: 0 <= i < j < |fields| ==> Less(fields[i].key, fields[j].key)
  }

  ghost predicate DistinctKeys(fields: seq<Field>) {
    forall i, j :: 0 <= i < j < |fields| ==> fields[i].key != fields[j].key
  }

  function Insert(f: Field, fields: seq<Field>): (r: seq<Field>)
    ensures forall x :: x in r <==> x == f || x in fields
  {
    if fields == [] || Less(f.key, fields[0].key) then [f] + fields
    else [fields[0]] + Insert(f, fields[1..])
  }

  function Sort(fields: seq<Field>): (r: seq<Field>)
    ensures forall x :: x in r <==> x in fields
  {
    if fields == [] then [] else Insert(fields[0], Sort(fields[1..]))
  }

  lemma {:induction false} InsertSorted(f: Field, fields: seq<Field>)
    requires Sorted(fields) && forall x :: x in fields ==> x.key != f.key
    ensures Sorted(Insert(f, fields))
    decreases |fields|
  {
    if fields == [] {
    } else if Less(f.key, fields[0].key) {
      forall j | 0 <= j < |fields| ensures Less(f.key, fields[j].key) {
        if j > 0 { LessIsTransitive(f.key, fields[0].key, fields[j].key); }
      }
    } else {
      LessIsTotal(f.key, fields[0].key);
      assert fields[0] in fields;
      InsertSorted(f, fields[1..]);
      forall x | x in Insert(f, fields[1..]) ensures Less(fields[0].key, x.key) {
        if x != f {
          var j :| 0 <= j < |fields[1..]| && fields[1..][j] == x;
          assert fields[j + 1] == x;
        }
      }
    }
  }

  lemma {:induction false} SortSorted(fields: seq<Field>)
    requires DistinctKeys(fields)
    ensures Sorted(Sort(fields))
    decreases |fields|
  {
    if fields != [] {
      SortSorted(fields[1..]);
      InsertSorted(fields[0], Sort(fields[1..]));
    }
  }

  /** A sorted list is determined by its entries. */
  lemma {:induction false} SortedIsUnique(a: seq<Field>, b: seq<Field>)
    requires Sorted(a) && Sorted(b) && forall x :: x in a <==> x in b
    ensures a == b
    decreases |a|
  {
    EmptyAlike(a, b);
    if a != [] {
      assert a[0] in a && b[0] in b;
      HeadIsLeast(a, b[0]);
      HeadIsLeast(b, a[0]);
      LessIsTotal(a[0].key, b[0].key);
      assert a[0] == b[0];
      forall x ensures x in a[1..] <==> x in b[1..] {
        TailHas(a, x);
        TailHas(b, x);
      }
      SortedIsUnique(a[1..], b[1..]);
      assert a == [a[0]] + a[1..] && b == [b[0]] + b[1..];
    }
  }

  lemma EmptyAlike(a: seq<Field>, b: seq<Field>)
    requires forall x :: x in a <==> x in b
    ensures a == [] <==> b == []
  {
    assert a != [] ==> a[0] in a;
    assert b != [] ==> b[0] in b;
  }

  lemma HeadIsLeast(a: seq<Field>, x: Field)
    requires Sorted(a) && x in a
    ensures x == a[0] || Less(a[0].key, x.key)
  {}

  lemma TailHas(a: seq<Field>, x: Field)
    requires Sorted(a) && a != []
    ensures x in a[1..] <==> x in a && x != a[0]
  {
    LessIsTotal(a[0].key, a[0].key);
    if x in a && x != a[0] {
      var i :| 0 <= i < |a| && a[i] == x;
      assert a[1..][i - 1] == x;
    }
  }

  // ---- the form -----------------------------------------------------------------------------

  function IsDefined(): Field -> bool {
    (f: Field) => f.value != Undefined
  }

  function Canonical(v: Value): Value
    decreases v, 2
  {
    match v
    case Arr(items) => Arr(CanonicalItems(items, v))
    case Obj(fields) => Obj(CanonicalFields(Sort(Filter(IsDefined(), fields)), v))
    case _ => v
  }

  function CanonicalItems(items: seq<Value>, v: Value): (r: seq<Value>)
    requires forall i :: 0 <= i < |items| ==> items[i] < v
    ensures |r| == |items| && forall i :: 0 <= i < |r| ==> r[i] == Canonical(items[i])
    decreases v, 1, |items|
  {
    if items == [] then []
    else
      [Canonical(items[0])] + CanonicalItems(items[1..], v)
  }

  function CanonicalFields(fields: seq<Field>, v: Value): (r: seq<Field>)
    requires forall f :: f in fields ==> f.value < v
    ensures |r| == |fields|
    ensures forall i :: 0 <= i < |r| ==> r[i] == Field(fields[i].key, Canonical(fields[i].value))
    decreases v, 1, |fields|
  {
    if fields == [] then []
    else
      assert forall f :: f in fields[1..] ==> f in fields;
      [Field(fields[0].key, Canonical(fields[0].value))] + CanonicalFields(fields[1..], v)
  }

  /** Keys are distinct in every object. */
  ghost predicate WellFormed(v: Value)
    decreases v
  {
    match v
    case Arr(items) => forall x :: x in items ==> WellFormed(x)
    case Obj(fields) => DistinctKeys(fields) && forall f :: f in fields ==> WellFormed(f.value)
    case _ => true
  }

  predicate Has(fields: seq<Field>, f: Field) {
    f in fields && f.value != Undefined
  }

  /** Hereditary equality: objects agree on their defined fields, whatever the order. */
  ghost predicate Same(a: Value, b: Value)
    decreases a, 1
  {
    match a
    case Arr(items) => b.Arr? && |items| == |b.items| && forall i :: 0 <= i < |items| ==> Same(items[i], b.items[i])
    case Obj(fields) =>
      && b.Obj?
      && (forall f :: f in fields && f.value != Undefined ==> HasEqual(f, b.fields))
      && (forall g :: Has(b.fields, g) ==> IsEqualed(g, fields, a))
    case _ => a == b
  }

  /** Some defined field has the same key and a hereditarily equal value. */
  ghost predicate HasEqual(f: Field, fields: seq<Field>)
    decreases f.value, 2
  {
    exists g :: Has(fields, g) && g.key == f.key && Same(f.value, g.value)
  }

  ghost predicate IsEqualed(g: Field, fields: seq<Field>, v: Value)
    requires forall f :: f in fields ==> f.value < v
    decreases v, 0
  {
    exists f :: f in fields && f.value != Undefined && g.key == f.key && Same(f.value, g.value)
  }

  lemma {:induction false} FilterDistinct(fields: seq<Field>)
    requires DistinctKeys(fields)
    ensures DistinctKeys(Filter(IsDefined(), fields))
    decreases |fields|
  {
    if fields != [] {
      FilterDistinct(fields[1..]);
      var rest := Filter(IsDefined(), fields[1..]);
      forall x | x in rest ensures x.key != fields[0].key {
        var i :| 0 <= i < |fields[1..]| && fields[1..][i] == x;
        assert fields[i + 1] == x;
      }
    }
  }

  /** The canonical fields of an object: sorted, and exactly the canonical images of the defined
      fields. */
  lemma CanonicalObject(v: Value)
    requires v.Obj? && DistinctKeys(v.fields)
    ensures Canonical(v).Obj? && Sorted(Canonical(v).fields)
    ensures forall x :: x in Canonical(v).fields <==>
      exists f :: Has(v.fields, f) && x == Field(f.key, Canonical(f.value))
  {
    var defined := Filter(IsDefined(), v.fields);
    var sorted := Sort(defined);
    FilterDistinct(v.fields);
    SortSorted(defined);
    var fields := Canonical(v).fields;
    assert fields == CanonicalFields(sorted, v);
    hide Sort;
    hide Sorted;
    hide DistinctKeys;
    hide Canonical;
    forall x ensures x in fields <==> exists f :: Has(v.fields, f) && x == Field(f.key, Canonical(f.value)) {
      if x in fields {
        var i :| 0 <= i < |fields| && fields[i] == x;
        assert sorted[i] in sorted && Has(v.fields, sorted[i]);
      }
      if f :| Has(v.fields, f) && x == Field(f.key, Canonical(f.value)) {
        assert f in sorted;
        var i :| 0 <= i < |sorted| && sorted[i] == f;
        assert fields[i] == x;
      }
    }
  }

  lemma CanonicalUndefined(v: Value)
    ensures Canonical(v) == Undefined <==> v == Undefined
  {}

  lemma EqualOf(f: Field, fields: seq<Field>) returns (g: Field)
    requires HasEqual(f, fields)
    ensures Has(fields, g) && g.key == f.key && Same(f.value, g.value)
  {
    g :| Has(fields, g) && g.key == f.key && Same(f.value, g.value);
  }

  lemma EqualedBy(g: Field, fields: seq<Field>, v: Value) returns (f: Field)
    requires (forall f :: f in fields ==> f.value < v) && IsEqualed(g, fields, v)
    ensures Has(fields, f) && g.key == f.key && Same(f.value, g.value)
  {
    f :| f in fields && f.value != Undefined && g.key == f.key && Same(f.value, g.value);
  }

  /** Values that are hereditarily equal have one canonical form. */
  lemma {:induction false} SameHaveOneForm(a: Value, b: Value)
    requires WellFormed(a) && WellFormed(b) && Same(a, b)
    ensures Canonical(a) == Canonical(b)
    decreases a
  {
    match a {
      case Arr(items) =>
        forall i | 0 <= i < |items| ensures Canonical(items[i]) == Canonical(b.items[i]) {
          assert items[i] in items && b.items[i] in b.items;
          SameHaveOneForm(items[i], b.items[i]);
        }
      case Obj(fields) =>
        hide Canonical;
        hide HasEqual;
        hide IsEqualed;
        CanonicalObject(a);
        CanonicalObject(b);
        forall x ensures x in Canonical(a).fields <==> x in Canonical(b).fields {
          if x in Canonical(a).fields {
            var f :| Has(fields, f) && x == Field(f.key, Canonical(f.value));
            var g := EqualOf(f, b.fields);
            SameHaveOneForm(f.value, g.value);
          }
          if x in Canonical(b).fields {
            var g :| Has(b.fields, g) && x == Field(g.key, Canonical(g.value));
            var f := EqualedBy(g, fields, a);
            SameHaveOneForm(f.value, g.value);
          }
        }
        SortedIsUnique(Canonical(a).fields, Canonical(b).fields);
      case _ =>
    }
  }

  /** Values with one canonical form are hereditarily equal. */
  lemma {:induction false} OneFormIsSame(a: Value, b: Value)
    requires WellFormed(a) && WellFormed(b) && Canonical(a) == Canonical(b)
    ensures Same(a, b)
    decreases a
  {
    match a {
      case Arr(items) =>
        forall i | 0 <= i < |items| ensures Same(items[i], b.items[i]) {
          assert items[i] in items && b.items[i] in b.items;
          assert Canonical(a).items[i] == Canonical(b).items[i];
          OneFormIsSame(items[i], b.items[i]);
        }
      case Obj(fields) =>
        CanonicalObject(a);
        CanonicalObject(b);
        forall f | f in fields && f.value != Undefined ensures HasEqual(f, b.fields) {
          assert Has(fields, f);
          var x := Field(f.key, Canonical(f.value));
          assert x in Canonical(a).fields;
          var g :| Has(b.fields, g) && x == Field(g.key, Canonical(g.value));
          OneFormIsSame(f.value, g.value);
        }
        forall g | Has(b.fields, g) ensures IsEqualed(g, fields, a) {
          var x := Field(g.key, Canonical(g.value));
          assert x in Canonical(b).fields;
          var f :| Has(fields, f) && x == Field(f.key, Canonical(f.value));
          OneFormIsSame(f.value, g.value);
        }
      case _ =>
    }
  }

  /** Equal canonical forms mean equal values, up to key order and undefined fields. */
  lemma CanonicalDecidesEquality(a: Value, b: Value)
    requires WellFormed(a) && WellFormed(b)
    ensures Canonical(a) == Canonical(b) <==> Same(a, b)
  {
    if Same(a, b) { SameHaveOneForm(a, b); }
    if Canonical(a) == Canonical(b) { OneFormIsSame(a, b); }
  }

  lemma SortedDistinct(fields: seq<Field>)
    requires Sorted(fields)
    ensures DistinctKeys(fields)
  {
    forall i, j | 0 <= i < j < |fields| ensures fields[i].key != fields[j].key {
      LessIsTotal(fields[i].key, fields[j].key);
    }
  }

  /** The canonical form of a canonical form is itself. */
  lemma {:induction false} CanonicalIsIdempotent(v: Value)
    requires WellFormed(v)
    ensures Canonical(Canonical(v)) == Canonical(v)
    decreases v
  {
    match v {
      case Arr(items) =>
        forall i | 0 <= i < |items| ensures Canonical(Canonical(items[i])) == Canonical(items[i]) {
          assert items[i] in items;
          CanonicalIsIdempotent(items[i]);
        }
      case Obj(fields) =>
        CanonicalObject(v);
        var c := Canonical(v);
        SortedDistinct(c.fields);
        CanonicalObject(c);
        forall f | Has(fields, f) ensures Canonical(Canonical(f.value)) == Canonical(f.value) {
          CanonicalIsIdempotent(f.value);
        }
        forall x ensures x in Canonical(c).fields <==> x in c.fields {
          if x in Canonical(c).fields {
            var g :| Has(c.fields, g) && x == Field(g.key, Canonical(g.value));
          }
          if x in c.fields {
            var f :| Has(fields, f) && x == Field(f.key, Canonical(f.value));
            CanonicalUndefined(f.value);
            assert Has(c.fields, x);
          }
        }
        SortedIsUnique(Canonical(c).fields, c.fields);
      case _ =>
    }
  }
}
