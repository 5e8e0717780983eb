/** Filter trees and what they mean on a document (core/src/filter). */
module Filter {
  import opened Prelude
  import opened Bytes
  import opened Value

  type Path = seq<Byte>

  datatype Filter =
    | And(all: seq<Filter>)
    | Or(any: seq<Filter>)
    | Not(inner: Filter)
    | Eq(field: Path, value: Value)
    | Ne(field: Path, value: Value)
    | Gt(field: Path, value: Value)
    | Gte(field: Path, value: Value)
    | Lt(field: Path, value: Value)
    | Lte(field: Path, value: Value)
    | In(field: Path, values: seq<Value>)
    | Nin(field: Path, values: seq<Value>)
    | Exists(field: Path)
    | IsNull(field: Path)
    | StartsWith(field: Path, prefix: seq<Byte>)
    | Contains(field: Path, value: Value)

  datatype Ordering = Below | Equal | Above

  /**
    A document as a filter sees it: what each path resolves to, and how the machine orders
    two numbers at least one of which is a float.
  */
  datatype Document = Document(resolve: Path -> Option<Value>, order: (Value, Value) -> Option<Ordering>)

  predicate Numeric(v: Value) {
    v.I64? || v.F64?
  }

  predicate Same(a: Value, b: Value, d: Document)
    decreases a
  {
    if a.I64? && b.I64? then a.i == b.i
    else if Numeric(a) && Numeric(b) then d.order(a, b) == Some(Equal)
    else if a.Array? && b.Array? then
      |a.items| == |b.items| && forall i :: 0 <= i < |a.items| ==> Same(a.items[i], b.items[i], d)
    else if a.Map? && b.Map? then
      && |a.entries| == |b.entries|
      && forall i :: 0 <= i < |a.entries| ==>
           a.entries[i].key == b.entries[i].key && Same(a.entries[i].value, b.entries[i].value, d)
    else !Numeric(a) && !a.Array? && !a.Map? && a == b
  }

  /** An absent field equals null. */
  predicate Equals(actual: Option<Value>, expected: Value, d: Document) {
    match actual
    case None => expected.Null?
    case Some(a) => Same(a, expected, d)
  }

  function OrderBytes(a: seq<Byte>, b: seq<Byte>): Ordering {
    if a == b then Equal else if Less(a, b) then Below else Above
  }

  function Compare(a: Value, b: Value, d: Document): Option<Ordering> {
    if a.I64? && b.I64? then Some(if a.i == b.i then Equal else if a.i < b.i then Below else Above)
    else if Numeric(a) && Numeric(b) then d.order(a, b)
    else if a.Str? && b.Str? then Some(OrderBytes(a.text, b.text))
    else if a.Bool? && b.Bool? then Some(if a.b == b.b then Equal else if b.b then Below else Above)
    else if a.Blob? && b.Blob? then Some(OrderBytes(a.bytes, b.bytes))
    else None
  }

  /** False wherever no ordering is defined. */
  predicate Ordered(d: Document, field: Path, value: Value, accept: set<Ordering>) {
    match d.resolve(field)
    case None => false
    case Some(a) => var o := Compare(a, value, d); o.Some? && o.value in accept
  }

  predicate Matches(f: Filter, d: Document)
    decreases f
  {
    match f
    case And(all) => forall i :: 0 <= i < |all| ==> Matches(all[i], d)
    case Or(any) => exists i :: 0 <= i < |any| && Matches(any[i], d)
    case Not(inner) => !Matches(inner, d)
    case Eq(p, v) => Equals(d.resolve(p), v, d)
    case Ne(p, v) => !Equals(d.resolve(p), v, d)
    case Gt(p, v) => Ordered(d, p, v, {Above})
    case Gte(p, v) => Ordered(d, p, v, {Equal, Above})
    case Lt(p, v) => Ordered(d, p, v, {Below})
    case Lte(p, v) => Ordered(d, p, v, {Below, Equal})
    case In(p, vs) => exists i :: 0 <= i < |vs| && Equals(d.resolve(p), vs[i], d)
    case Nin(p, vs) => !exists i :: 0 <= i < |vs| && Equals(d.resolve(p), vs[i], d)
    case Exists(p) => d.resolve(p).Some?
    case IsNull(p) => d.resolve(p).None? || d.resolve(p).value.Null?
    case StartsWith(p, prefix) => d.resolve(p).Some? && d.resolve(p).value.Str? && prefix <= d.resolve(p).value.text
    case Contains(p, v) =>
      d.resolve(p).Some? && d.resolve(p).value.Array?
      && exists i :: 0 <= i < |d.resolve(p).value.items| && Same(d.resolve(p).value.items[i], v, d)
  }

  // ----- Two filters that mean the same -----

  ghost predicate Equivalent(f: Filter, g: Filter) {
    forall d: Document :: Matches(f, d) == Matches(g, d)
  }

  ghost predicate AllEquivalent(fs: seq<Filter>, gs: seq<Filter>) {
    |fs| == |gs| && forall i :: 0 <= i < |fs| ==> Equivalent(fs[i], gs[i])
  }

  lemma AndOrAlike(fs: seq<Filter>, gs: seq<Filter>)
    requires AllEquivalent(fs, gs)
    ensures Equivalent(And(fs), And(gs)) && Equivalent(Or(fs), Or(gs))
  {
    forall d: Document ensures Matches(And(fs), d) == Matches(And(gs), d) && Matches(Or(fs), d) == Matches(Or(gs), d) {
      assert forall i :: 0 <= i < |fs| ==> Matches(fs[i], d) == Matches(gs[i], d);
    }
  }

  lemma NotAlike(f: Filter, g: Filter)
    requires Equivalent(f, g)
    ensures Equivalent(Not(f), Not(g))
  {
    forall d: Document ensures Matches(Not(f), d) == Matches(Not(g), d) {
      assert Matches(f, d) == Matches(g, d);
    }
  }

  /** One conjunct, or one disjunct, is the combination itself. */
  lemma SoleChild(f: Filter)
    ensures Equivalent(f, And([f])) && Equivalent(f, Or([f]))
  {
    forall d: Document ensures Matches(f, d) == Matches(And([f]), d) && Matches(f, d) == Matches(Or([f]), d) {
      assert [f][0] == f;
    }
  }

  lemma Chain(f: Filter, g: Filter, h: Filter)
    requires Equivalent(f, g) && Equivalent(g, h)
    ensures Equivalent(f, h)
  {
    hide Matches, Same, Compare, Less;
    forall d: Document ensures Matches(f, d) == Matches(h, d) {
    }
  }

  /** Null equality is the null test, and inequality its negation. */
  lemma NullEquality(p: Path)
    ensures Equivalent(IsNull(p), Eq(p, Null)) && Equivalent(Not(IsNull(p)), Ne(p, Null))
  {
    forall d: Document
      ensures Matches(IsNull(p), d) == Matches(Eq(p, Null), d)
      ensures Matches(Not(IsNull(p)), d) == Matches(Ne(p, Null), d)
    {
      var a := d.resolve(p);
      assert a.Some? ==> (Same(a.value, Null, d) <==> a.value.Null?);
    }
  }

  function Equalities(p: Path, vs: seq<Value>): (r: seq<Filter>)
    ensures |r| == |vs| && forall i :: 0 <= i < |vs| ==> r[i] == Eq(p, vs[i])
  {
    seq(|vs|, i requires 0 <= i < |vs| => Eq(p, vs[i]))
  }

  /** Membership is a disjunction of equalities, and non-membership its negation. */
  lemma Membership(p: Path, vs: seq<Value>)
    ensures Equivalent(Or(Equalities(p, vs)), In(p, vs)) && Equivalent(Not(Or(Equalities(p, vs))), Nin(p, vs))
  {
    var es := Equalities(p, vs);
    forall d: Document
      ensures Matches(Or(es), d) == Matches(In(p, vs), d)
      ensures Matches(Not(Or(es)), d) == Matches(Nin(p, vs), d)
    {
      assert forall i :: 0 <= i < |es| ==> Matches(es[i], d) == Equals(d.resolve(p), vs[i], d);
    }
  }
}
