/**
  The laws of equality and order between values that filters rest on: equality is
  structural away from floats, order answers exactly within a kind, and the four
  comparisons fit together.
*/
module FilterOrder {
  import opened Prelude
  import opened Bytes
  import opened Value
  import opened Filter

  function Flip(o: Option<Ordering>): Option<Ordering> {
    match o
    case Some(Below) => Some(Above)
    case Some(Above) => Some(Below)
    case _ => o
  }

  /** The machine's order of floats does not depend on which is asked about first. */
  ghost predicate Fair(d: Document) {
    forall a, b :: d.order(a, b) == Flip(d.order(b, a))
  }

  ghost predicate NoFloats(v: Value)
    decreases v
  {
    match v
    case F64(_) => false
    case Array(items) => forall i :: 0 <= i < |items| ==> NoFloats(items[i])
    case Map(entries) => forall i :: 0 <= i < |entries| ==> NoFloats(entries[i].value)
    case _ => true
  }

  /** Where no float is involved, equal values are the same value. */
  lemma {:induction false} SameIsStructural(a: Value, b: Value, d: Document)
    requires NoFloats(a) && NoFloats(b)
    ensures Same(a, b, d) <==> a == b
    decreases a
  {
    if a.Array? && b.Array? && |a.items| == |b.items| {
      forall i | 0 <= i < |a.items|
        ensures Same(a.items[i], b.items[i], d) <==> a.items[i] == b.items[i]
      {
        SameIsStructural(a.items[i], b.items[i], d);
      }
      assert a == b <==> a.items == b.items;
    } else if a.Map? && b.Map? && |a.entries| == |b.entries| {
      EntriesSame(a, b, d);
    }
  }

  lemma {:induction false} EntriesSame(a: Value, b: Value, d: Document)
    requires NoFloats(a) && NoFloats(b) && a.Map? && b.Map? && |a.entries| == |b.entries|
    ensures Same(a, b, d) <==> a == b
    decreases a, 0
  {
    forall i | 0 <= i < |a.entries|
      ensures a.entries[i].key == b.entries[i].key && Same(a.entries[i].value, b.entries[i].value, d)
              <==> a.entries[i] == b.entries[i]
    {
      SameIsStructural(a.entries[i].value, b.entries[i].value, d);
    }
    assert a == b <==> a.entries == b.entries;
  }

  /** Equality does not depend on which side is the document's. */
  lemma {:induction false} SameIsSymmetric(a: Value, b: Value, d: Document)
    requires Fair(d)
    ensures Same(a, b, d) == Same(b, a, d)
    decreases a
  {
    if a.Array? && b.Array? && |a.items| == |b.items| {
      forall i | 0 <= i < |a.items|
        ensures Same(a.items[i], b.items[i], d) == Same(b.items[i], a.items[i], d)
      {
        SameIsSymmetric(a.items[i], b.items[i], d);
      }
    } else if a.Map? && b.Map? && |a.entries| == |b.entries| {
      forall i | 0 <= i < |a.entries|
        ensures Same(a.entries[i].value, b.entries[i].value, d) == Same(b.entries[i].value, a.entries[i].value, d)
      {
        SameIsSymmetric(a.entries[i].value, b.entries[i].value, d);
      }
    }
  }

  /** A float and another number are equal when the machine says so, and no number equals anything else. */
  lemma FloatsSame(a: Value, b: Value, d: Document)
    requires a.F64? || b.F64?
    ensures Same(a, b, d) <==>
      (a.F64? || a.I64?) && (b.F64? || b.I64?) && d.order(a, b) == Some(Equal)
  {
  }

  /** Which values are ordered at all: numbers, text, truth values and byte strings, each among themselves. */
  lemma OrderedExactly(a: Value, b: Value, d: Document)
    ensures Compare(a, b, d).Some? <==>
      || (a.I64? && b.I64?)
      || ((a.F64? || b.F64?) && (a.F64? || a.I64?) && (b.F64? || b.I64?) && d.order(a, b).Some?)
      || (a.Str? && b.Str?) || (a.Bool? && b.Bool?) || (a.Blob? && b.Blob?)
  {
  }

  /** Exchanging the two sides reverses the order. */
  lemma OrderFlips(a: Value, b: Value, d: Document)
    requires Fair(d)
    ensures Compare(a, b, d) == Flip(Compare(b, a, d))
  {
    match (a, b)
    case (Str(s), Str(t)) => LessTotal(s, t);
    case (Blob(s), Blob(t)) => LessTotal(s, t);
    case _ =>
  }

  /** Being neither above nor below is being equal. */
  lemma OrderedEqual(a: Value, b: Value, d: Document)
    requires Compare(a, b, d).Some?
    ensures Compare(a, b, d) == Some(Equal) <==> Same(a, b, d)
  {
  }

  /** Order is transitive away from floats. */
  lemma OrderTransitive(a: Value, b: Value, c: Value, d: Document)
    requires !a.F64? && !b.F64? && !c.F64?
    requires Compare(a, b, d) == Some(Below) && Compare(b, c, d) == Some(Below)
    ensures Compare(a, c, d) == Some(Below)
  {
    match (a, b, c)
    case (Str(s), Str(t), Str(u)) => LessTransitive(s, t, u); LessTotal(s, u);
    case (Blob(s), Blob(t), Blob(u)) => LessTransitive(s, t, u); LessTotal(s, u);
    case _ =>
  }

  /** What lies below: the smaller number, `false` under `true`, the text smaller at the first difference. */
  lemma BelowExactly(a: Value, b: Value, d: Document)
    requires !a.F64? && !b.F64?
    ensures Compare(a, b, d) == Some(Below) <==>
      || (a.I64? && b.I64? && a.i < b.i)
      || (a.Bool? && b.Bool? && !a.b && b.b)
      || (a.Str? && b.Str? && FirstSmaller(a.text, b.text))
      || (a.Blob? && b.Blob? && FirstSmaller(a.bytes, b.bytes))
  {
    match (a, b)
    case (Str(s), Str(t)) => LessExactly(s, t); LessTotal(s, t);
    case (Blob(s), Blob(t)) => LessExactly(s, t); LessTotal(s, t);
    case _ =>
  }

  /**
    The four comparisons of a field that has an order with the value: exactly one of below,
    equal and above holds, and the other two are its unions.  Without an order all four fail,
    so the opposite comparisons are not each other's negation.
  */
  lemma ComparisonsFit(p: Path, v: Value, d: Document)
    ensures var actual := d.resolve(p);
            var lt, lte, gt, gte := Matches(Lt(p, v), d), Matches(Lte(p, v), d), Matches(Gt(p, v), d), Matches(Gte(p, v), d);
            if actual.Some? && Compare(actual.value, v, d).Some? then
              var eq := Matches(Eq(p, v), d);
              && lte == (lt || eq) && gte == (gt || eq)
              && (lt || eq || gt) && !(lt && eq) && !(lt && gt) && !(eq && gt)
              && (lt <==> Compare(actual.value, v, d) == Some(Below))
            else !lt && !lte && !gt && !gte
  {
    var actual := d.resolve(p);
    if actual.Some? && Compare(actual.value, v, d).Some? {
      OrderedEqual(actual.value, v, d);
      hide Same, Compare;
      match Compare(actual.value, v, d).value
      case Below =>
      case Equal =>
      case Above =>
    }
  }
}
