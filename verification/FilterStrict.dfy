/** Exactly which query objects the compiler refuses although the Node binding accepts them. */
module FilterStrict {
  import opened Prelude
  import opened Bytes
  import opened Filter
  import opened FilterInput
  import opened FilterNode
  import opened FilterCompile
  import opened FilterMachine

  /** Finite, and null only where it can be spelled as a null test. */
  predicate Comparable(op: int, v: Js) {
    (v.JsNull? ==> op == EQ || op == NE) && !(v.JsNumber? && v.n.NotFinite?)
  }

  predicate Members(v: Js) {
    v.JsArray? ==> v.items != [] && forall i :: 0 <= i < |v.items| ==> Comparable(EQ, v.items[i])
  }

  predicate StrictOperator(op: Operator, raw: Js) {
    match op
    case OpEq => Comparable(EQ, raw)
    case OpNe => Comparable(NE, raw)
    case OpGt => Comparable(GT, raw)
    case OpGte => Comparable(GTE, raw)
    case OpLt => Comparable(LT, raw)
    case OpLte => Comparable(LTE, raw)
    case OpContains => Comparable(CONTAINS, raw)
    case OpIn => Members(raw)
    case OpNin => Members(raw)
    case _ => true
  }

  predicate StrictOperators(ops: seq<Prop>) {
    forall i :: 0 <= i < |ops| ==> StrictOperator(ScriptOperator(ops[i].key), ops[i].value)
  }

  predicate StrictField(v: Js) {
    if v.JsObject? then v.props != [] && StrictOperators(v.props) else Comparable(EQ, v)
  }

  predicate StrictNested(v: Js)
    decreases v
  {
    v.JsObject? && v.props != [] && forall i :: 0 <= i < |v.props| ==> StrictClause(v.props[i])
  }

  predicate StrictClause(p: Prop)
    decreases p
  {
    match ScriptKey(p.key)
    case AndKey => StrictList(p.value)
    case OrKey => StrictList(p.value)
    case NotKey => StrictNested(p.value)
    case UnknownKey => true
    case FieldKey => StrictField(p.value)
  }

  predicate StrictList(v: Js)
    decreases v
  {
    v.JsArray? ==> v.items != [] && forall i :: 0 <= i < |v.items| ==> StrictNested(v.items[i])
  }

  lemma CompareExactly(field: Path, op: int, v: Js)
    ensures PushCompare(field, op, v).Ok? <==> Scalar(v).Ok? && Comparable(op, v)
  {
  }

  lemma {:induction false} EqualitiesExactly(field: Path, vs: seq<Js>)
    ensures PushEqualities(field, vs).Ok? <==> Scalars(vs).Ok? && forall i :: 0 <= i < |vs| ==> Comparable(EQ, vs[i])
  {
    hide PushCompare, Scalar, Comparable;
    if vs != [] {
      CompareExactly(field, EQ, vs[0]);
      EqualitiesExactly(field, vs[1..]);
      assert forall i :: 0 < i < |vs| ==> vs[i] == vs[1..][i - 1];
      assert forall i :: 0 <= i < |vs| - 1 ==> vs[1..][i] == vs[i + 1];
    }
  }

  lemma OperatorExactly(field: Path, op: Operator, raw: Js)
    ensures WalkOperator(field, op, raw).Ok? <==> ParseOperator(field, op, raw).Ok? && StrictOperator(op, raw)
  {
    hide PushCompare, PushEqualities, Scalars, Comparable;
    forall code: int ensures PushCompare(field, code, raw).Ok? <==> Scalar(raw).Ok? && Comparable(code, raw) {
      CompareExactly(field, code, raw);
    }
    if raw.JsArray? {
      EqualitiesExactly(field, raw.items);
    }
  }

  lemma {:induction false} OperatorsExactly(field: Path, ops: seq<Prop>)
    ensures WalkOperators(field, ops).Ok? <==> ParseOperators(field, ops).Ok? && StrictOperators(ops)
  {
    hide WalkOperator, ParseOperator, StrictOperator, ScriptOperator, NodeOperator;
    if ops != [] {
      NamesAgree(ops[0].key);
      OperatorExactly(field, ScriptOperator(ops[0].key), ops[0].value);
      OperatorsExactly(field, ops[1..]);
      assert forall i :: 0 < i < |ops| ==> ops[i] == ops[1..][i - 1];
      assert forall i :: 0 <= i < |ops| - 1 ==> ops[1..][i] == ops[i + 1];
    }
  }

  lemma FieldExactly(field: Path, v: Js)
    ensures WalkField(field, v).Ok? <==> ParseField(field, v).Ok? && StrictField(v)
  {
    hide PushCompare, Scalar, Comparable, WalkOperators, ParseOperators, StrictOperators;
    CompareExactly(field, EQ, v);
    if v.JsObject? {
      OperatorsExactly(field, v.props);
      assert Scalar(v).Err? by { ObjectsAreNotScalars(v); }
    }
  }

  lemma ObjectsAreNotScalars(v: Js)
    requires v.JsObject?
    ensures Scalar(v).Err?
  {
  }

  lemma {:induction false} NestedExactly(v: Js, depth: nat, coerce: Coercion)
    ensures WalkNested(v, depth).Ok? <==> ParseObject(v, depth, coerce).Ok? && StrictNested(v)
    decreases Max(0, MAX_NESTING + 1 - depth), 2
  {
    hide WalkClauses, ParseClauses, StrictClause;
    if v.JsObject? && depth <= MAX_NESTING {
      ClausesExactly(v.props, depth, coerce);
    }
  }

  lemma {:induction false} ClausesExactly(props: seq<Prop>, depth: nat, coerce: Coercion)
    requires depth <= MAX_NESTING
    ensures WalkClauses(props, depth).Ok? <==>
      ParseClauses(props, depth, coerce).Ok? && forall i :: 0 <= i < |props| ==> StrictClause(props[i])
    decreases MAX_NESTING + 1 - depth, 1, |props|
  {
    hide WalkClause, ParseClause, StrictClause;
    if props != [] {
      ClauseExactly(props[0], depth, coerce);
      ClausesExactly(props[1..], depth, coerce);
      assert forall i :: 0 < i < |props| ==> props[i] == props[1..][i - 1];
      assert forall i :: 0 <= i < |props| - 1 ==> props[1..][i] == props[i + 1];
    }
  }

  lemma {:induction false} ClauseExactly(p: Prop, depth: nat, coerce: Coercion)
    requires depth <= MAX_NESTING
    ensures WalkClause(p, depth).Ok? <==> ParseClause(p, depth, coerce).Ok? && StrictClause(p)
    decreases MAX_NESTING + 1 - depth, 0
  {
    hide WalkNested, WalkItems, ParseObject, ParseList, WalkField, ParseField, StrictNested, StrictField, ScriptKey, NodeKey;
    NamesAgree(p.key);
    match ScriptKey(p.key)
    case AndKey => ListExactly(p.value, depth, coerce);
    case OrKey => ListExactly(p.value, depth, coerce);
    case NotKey =>
      NestedExactly(p.value, depth + 1, coerce);
      StrictIsObject(p.value);
    case UnknownKey =>
    case FieldKey => FieldExactly(p.key, p.value);
  }

  lemma StrictIsObject(v: Js)
    ensures StrictNested(v) ==> v.JsObject?
  {
  }

  lemma {:induction false} ListExactly(v: Js, depth: nat, coerce: Coercion)
    requires depth <= MAX_NESTING
    ensures forall op :: WalkList(op, v, depth).Ok? <==>
      v.JsArray? && ParseList(v.items, depth + 1, coerce).Ok? && StrictList(v)
    decreases MAX_NESTING + 1 - depth, 0, 0
  {
    hide WalkItems, ParseList, StrictNested;
    if v.JsArray? {
      ItemsExactly(v.items, depth + 1, coerce);
    }
  }

  lemma {:induction false} ItemsExactly(items: seq<Js>, depth: nat, coerce: Coercion)
    ensures WalkItems(items, depth).Ok? <==>
      ParseList(items, depth, coerce).Ok? && forall i :: 0 <= i < |items| ==> StrictNested(items[i])
    decreases Max(0, MAX_NESTING + 1 - depth), 3, |items|
  {
    hide WalkNested, ParseObject, StrictNested;
    if items != [] {
      NestedExactly(items[0], depth, coerce);
      ItemsExactly(items[1..], depth, coerce);
      assert forall i :: 0 < i < |items| ==> items[i] == items[1..][i - 1];
      assert forall i :: 0 <= i < |items| - 1 ==> items[1..][i] == items[i + 1];
    }
  }

  /**
    A filter object compiles if and only if the Node binding accepts it and it is empty or
    strict: no empty list, no empty nested filter, no empty operator object, no ordering
    against null, no number that is not finite, and plain objects wherever a filter nests.
  */
  lemma CompilesExactly(v: Js, coerce: Coercion)
    requires v.JsObject?
    ensures Compile(v).Ok? <==> Parse(v, coerce).Ok? && (v.props == [] || StrictNested(v))
  {
    hide WalkClauses, ParseClauses, StrictClause;
    if v.props == [] {
      EmptyObject(v.props, coerce);
    } else {
      NestedExactly(v, 1, coerce);
    }
  }

  /** An empty disjunction is one such object: Node builds a filter that matches nothing. */
  lemma EmptyOrDiffers(coerce: Coercion)
    ensures var v := JsObject([Prop(Ascii("$or"), JsArray([]))]);
      Parse(v, coerce) == Ok(Or([])) && Compile(v).Err?
  {
    var p := Prop(Ascii("$or"), JsArray([]));
    assert ScriptKey(p.key) == OrKey && NodeKey(p.key) == OrKey by {
      assert |Ascii("$and")| == 4 && |p.key| == 3;
    }
    assert [p][1..] == [];
    assert ParseClause(p, 1, coerce) == Ok(Or([]));
    var none: seq<Filter> := [];
    assert ParseClauses([p][1..], 1, coerce) == Ok(none) && [Or([])] + none == [Or([])];
    assert ParseClauses([p], 1, coerce) == Ok([Or([])]);
    assert WalkClause(p, 1).Err?;
  }
}
