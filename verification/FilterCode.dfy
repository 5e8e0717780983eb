/**
  The compiler pushing onto its shared step list, the builder with its stack, and the Node
  parser gathering clauses, each with the loops its source has.
*/
module FilterCode {
  import opened Prelude
  import opened Bytes
  import opened Value
  import opened Filter
  import opened FilterInput
  import opened FilterNode
  import opened FilterCompile
  import opened FilterMachine

  /** What a loop still to run makes of what it has so far. */
  function Joined<T>(sofar: seq<T>, rest: Parsed<seq<T>>): Parsed<seq<T>> {
    if rest.Ok? then Ok(sofar + rest.value) else rest
  }

  lemma JoinedStarts<T>(rest: Parsed<seq<T>>)
    ensures Joined([], rest) == rest
  {
    if rest.Ok? {
      assert [] + rest.value == rest.value;
    }
  }

  lemma JoinedEnds<T>(sofar: seq<T>)
    ensures Joined(sofar, Ok([])) == Ok(sofar)
  {
    assert sofar + [] == sofar;
  }

  lemma JoinedOne<T>(sofar: seq<T>, s: seq<T>, rest: Parsed<seq<T>>)
    ensures Joined(sofar, Joined(s, rest)) == Joined(sofar + s, rest)
  {
    if rest.Ok? {
      Associate(sofar, s, rest.value);
    }
  }

  // ----- filter.js -----

  class Steps {
    var list: seq<Step>

    constructor ()
      ensures list == []
    {
      list := [];
    }

    method Push(s: Step)
      modifies this
      ensures list == old(list) + [s]
    {
      list := list + [s];
    }
  }

  /** The method threw exactly when the function refuses, and otherwise pushed exactly its steps. */
  ghost predicate Pushed<T>(spec: Parsed<seq<Step>>, r: Parsed<T>, was: seq<Step>, now: seq<Step>) {
    (r.Ok? <==> spec.Ok?) && (spec.Ok? ==> now == was + spec.value)
  }

  method ConjoinSteps(steps: Steps, count: nat)
    modifies steps
    ensures steps.list == old(steps.list) + Conjoin(count)
  {
    if count > 1 {
      steps.Push(Combine(AND, count));
    }
  }

  method PushCompareStep(steps: Steps, field: Path, op: int, v: Js) returns (r: Parsed<()>)
    modifies steps
    ensures Pushed(PushCompare(field, op, v), r, old(steps.list), steps.list)
  {
    match v
    case JsNull =>
      if op == EQ {
        steps.Push(Unary(field, IS_NULL));
      } else if op == NE {
        steps.Push(Unary(field, IS_NULL));
        steps.Push(Combine(NOT, 1));
      } else {
        return Err(());
      }
      return Ok(());
    case JsString(s) =>
      steps.Push(CompareString(field, op, s));
      return Ok(());
    case JsBool(b) =>
      steps.Push(CompareBool(field, op, b));
      return Ok(());
    case JsNumber(Whole(i)) =>
      steps.Push(CompareI64(field, op, i));
      return Ok(());
    case JsNumber(Fraction(bits)) =>
      steps.Push(CompareF64(field, op, bits));
      return Ok(());
    case _ => return Err(());
  }

  method PushMemberSteps(steps: Steps, field: Path, v: Js) returns (r: Parsed<()>)
    modifies steps
    ensures Pushed(PushMembers(field, v), r, old(steps.list), steps.list)
  {
    hide PushCompare;
    if !v.JsArray? || v.items == [] {
      return Err(());
    }
    ghost var sofar: seq<Step> := [];
    JoinedStarts(PushEqualities(field, v.items));
    assert v.items[0..] == v.items;
    for i := 0 to |v.items|
      invariant steps.list == old(steps.list) + sofar
      invariant Joined(sofar, PushEqualities(field, v.items[i..])) == PushEqualities(field, v.items)
    {
      assert v.items[i..][1..] == v.items[i + 1..];
      ghost var spec := PushCompare(field, EQ, v.items[i]);
      var _ :- PushCompareStep(steps, field, EQ, v.items[i]);
      JoinedOne(sofar, spec.value, PushEqualities(field, v.items[i + 1..]));
      sofar := sofar + spec.value;
    }
    JoinedEnds(sofar);
    if |v.items| > 1 {
      steps.Push(Combine(OR, |v.items|));
    }
    r := Ok(());
  }

  method WalkOperatorSteps(steps: Steps, field: Path, op: Operator, raw: Js) returns (r: Parsed<()>)
    modifies steps
    ensures Pushed(WalkOperator(field, op, raw), r, old(steps.list), steps.list)
  {
    hide PushCompare, PushMembers;
    match op
    case OpEq => r := PushCompareStep(steps, field, EQ, raw);
    case OpNe => r := PushCompareStep(steps, field, NE, raw);
    case OpGt => r := PushCompareStep(steps, field, GT, raw);
    case OpGte => r := PushCompareStep(steps, field, GTE, raw);
    case OpLt => r := PushCompareStep(steps, field, LT, raw);
    case OpLte => r := PushCompareStep(steps, field, LTE, raw);
    case OpContains => r := PushCompareStep(steps, field, CONTAINS, raw);
    case OpStartsWith =>
      if !raw.JsString? {
        return Err(());
      }
      steps.Push(CompareString(field, STARTS_WITH, raw.s));
      r := Ok(());
    case OpIn => r := PushMemberSteps(steps, field, raw);
    case OpNin =>
      r := PushMemberSteps(steps, field, raw);
      if r.Ok? {
        steps.Push(Combine(NOT, 1));
      }
    case OpExists =>
      steps.Push(Unary(field, if Truthy(raw) then EXISTS else IS_NULL));
      r := Ok(());
    case OpUnknown => r := Err(());
  }

  method WalkFieldSteps(steps: Steps, field: Path, v: Js) returns (r: Parsed<()>)
    modifies steps
    ensures Pushed(WalkField(field, v), r, old(steps.list), steps.list)
  {
    hide PushCompare, WalkOperator, ScriptOperator;
    if v.JsArray? {
      return Err(());
    }
    if !v.JsObject? {
      r := PushCompareStep(steps, field, EQ, v);
      return;
    }
    var ops := v.props;
    var clauses := 0;
    ghost var sofar: seq<Step> := [];
    JoinedStarts(WalkOperators(field, ops));
    assert ops[0..] == ops;
    for i := 0 to |ops|
      invariant clauses == i && steps.list == old(steps.list) + sofar
      invariant Joined(sofar, WalkOperators(field, ops[i..])) == WalkOperators(field, ops)
    {
      assert ops[i..][1..] == ops[i + 1..];
      ghost var spec := WalkOperator(field, ScriptOperator(ops[i].key), ops[i].value);
      var _ :- WalkOperatorSteps(steps, field, ScriptOperator(ops[i].key), ops[i].value);
      JoinedOne(sofar, spec.value, WalkOperators(field, ops[i + 1..]));
      sofar := sofar + spec.value;
      clauses := clauses + 1;
    }
    JoinedEnds(sofar);
    if clauses == 0 {
      return Err(());
    }
    ConjoinSteps(steps, clauses);
    r := Ok(());
  }

  /** Walk one object's clauses; the result is how many were pushed. */
  method WalkObject(steps: Steps, props: seq<Prop>, depth: nat) returns (r: Parsed<nat>)
    modifies steps
    ensures depth > MAX_NESTING ==> r.Err?
    ensures depth <= MAX_NESTING ==> Pushed(WalkClauses(props, depth), r, old(steps.list), steps.list)
    ensures r.Ok? ==> r.value == |props|
    decreases Max(0, MAX_NESTING + 1 - depth), 2
  {
    hide WalkClause;
    if depth > MAX_NESTING {
      return Err(());
    }
    var clauses := 0;
    ghost var sofar: seq<Step> := [];
    JoinedStarts(WalkClauses(props, depth));
    assert props[0..] == props;
    for i := 0 to |props|
      invariant clauses == i && steps.list == old(steps.list) + sofar
      invariant Joined(sofar, WalkClauses(props[i..], depth)) == WalkClauses(props, depth)
    {
      assert props[i..][1..] == props[i + 1..];
      ghost var spec := WalkClause(props[i], depth);
      var _ :- WalkClauseSteps(steps, props[i], depth);
      JoinedOne(sofar, spec.value, WalkClauses(props[i + 1..], depth));
      sofar := sofar + spec.value;
      clauses := clauses + 1;
    }
    JoinedEnds(sofar);
    r := Ok(clauses);
  }

  method WalkClauseSteps(steps: Steps, p: Prop, depth: nat) returns (r: Parsed<()>)
    requires depth <= MAX_NESTING
    modifies steps
    ensures Pushed(WalkClause(p, depth), r, old(steps.list), steps.list)
    decreases MAX_NESTING + 1 - depth, 1
  {
    hide WalkNested, WalkList, WalkField, ScriptKey;
    match ScriptKey(p.key)
    case AndKey => r := WalkListSteps(steps, AND, p.value, depth);
    case OrKey => r := WalkListSteps(steps, OR, p.value, depth);
    case NotKey =>
      r := WalkNestedSteps(steps, p.value, depth + 1);
      if r.Ok? {
        steps.Push(Combine(NOT, 1));
      }
    case UnknownKey => r := Err(());
    case FieldKey => r := WalkFieldSteps(steps, p.key, p.value);
  }

  /** A nested filter must be a plain object that pushes something. */
  method WalkNestedSteps(steps: Steps, v: Js, depth: nat) returns (r: Parsed<()>)
    modifies steps
    ensures Pushed(WalkNested(v, depth), r, old(steps.list), steps.list)
    decreases Max(0, MAX_NESTING + 1 - depth), 3
  {
    hide WalkClauses;
    if !v.JsObject? {
      return Err(());
    }
    var pushed :- WalkObject(steps, v.props, depth);
    if pushed == 0 {
      return Err(());
    }
    ConjoinSteps(steps, pushed);
    r := Ok(());
  }

  method WalkListSteps(steps: Steps, op: int, v: Js, depth: nat) returns (r: Parsed<()>)
    requires depth <= MAX_NESTING
    modifies steps
    ensures Pushed(WalkList(op, v, depth), r, old(steps.list), steps.list)
    decreases MAX_NESTING + 1 - depth, 0
  {
    hide WalkNested;
    if !v.JsArray? || v.items == [] {
      return Err(());
    }
    var items := v.items;
    ghost var sofar: seq<Step> := [];
    JoinedStarts(WalkItems(items, depth + 1));
    assert items[0..] == items;
    for i := 0 to |items|
      invariant steps.list == old(steps.list) + sofar
      invariant Joined(sofar, WalkItems(items[i..], depth + 1)) == WalkItems(items, depth + 1)
    {
      assert items[i..][1..] == items[i + 1..];
      ghost var spec := WalkNested(items[i], depth + 1);
      var _ :- WalkNestedSteps(steps, items[i], depth + 1);
      JoinedOne(sofar, spec.value, WalkItems(items[i + 1..], depth + 1));
      sofar := sofar + spec.value;
    }
    JoinedEnds(sofar);
    if |items| > 1 {
      steps.Push(Combine(op, |items|));
    }
    r := Ok(());
  }

  method CompileFilter(v: Js) returns (r: Parsed<seq<Step>>)
    ensures r.Ok? <==> Compile(v).Ok?
    ensures r.Ok? ==> r == Compile(v)
  {
    hide WalkClauses;
    match v
    case JsNull => r := Ok([]);
    case JsObject(props) =>
      var steps := new Steps();
      var clauses :- WalkObject(steps, props, 1);
      if clauses == 0 {
        r := Ok([]);
        assert props == [];
        NothingCompiles(v);
      } else {
        ghost var pushed := WalkClauses(props, 1).value;
        assert steps.list == [] + pushed == pushed;
        ConjoinSteps(steps, clauses);
        r := Ok(steps.list);
      }
    case _ => r := Err(());
  }

  // ----- ffi/src/filter.rs -----

  class VdbFilter {
    var stack: seq<Filter>

    constructor ()
      ensures stack == []
    {
      stack := [];
    }

    method PushComparison(field: Path, op: int, v: Value) returns (r: Parsed<()>)
      modifies this
      ensures r.Ok? <==> Comparison(field, op, v).Ok?
      ensures stack == old(stack) + if r.Ok? then [Comparison(field, op, v).value] else []
    {
      var f :- Comparison(field, op, v);
      stack := stack + [f];
      r := Ok(());
    }

    method PushUnary(field: Path, test: int) returns (r: Parsed<()>)
      modifies this
      ensures r.Ok? <==> test == UNARY_EXISTS || test == UNARY_IS_NULL
      ensures stack == old(stack) + if r.Err? then [] else if test == UNARY_EXISTS then [Exists(field)] else [IsNull(field)]
    {
      var built: Filter;
      if test == UNARY_EXISTS {
        built := Exists(field);
      } else if test == UNARY_IS_NULL {
        built := IsNull(field);
      } else {
        return Err(());
      }
      stack := stack + [built];
      r := Ok(());
    }

    /** The operands are popped before the combinator is looked at, so an unknown one loses them. */
    method PopCombine(combinator: int, count: nat) returns (r: Parsed<()>)
      modifies this
      ensures r.Ok? <==> Execute(old(stack), Combine(combinator, count)).Ok?
      ensures r.Ok? ==> stack == Execute(old(stack), Combine(combinator, count)).value
      ensures r.Err? ==> stack == if 0 < count <= |old(stack)| && combinator !in {COMBINE_AND, COMBINE_OR, COMBINE_NOT}
                                  then old(stack)[..|old(stack)| - count] else old(stack)
    {
      if count == 0 || count > |stack| {
        return Err(());
      }
      if combinator == COMBINE_NOT && count != 1 {
        return Err(());
      }
      var n := |stack| - count;
      var operands := stack[n..];
      stack := stack[..n];
      if combinator == COMBINE_AND {
        stack := stack + [And(operands)];
      } else if combinator == COMBINE_OR {
        stack := stack + [Or(operands)];
      } else if combinator == COMBINE_NOT {
        stack := stack + [Not(operands[0])];
      } else {
        return Err(());
      }
      r := Ok(());
    }

    method Take(s: Step) returns (r: Parsed<()>)
      modifies this
      ensures r.Ok? <==> Execute(old(stack), s).Ok?
      ensures r.Ok? ==> stack == Execute(old(stack), s).value
    {
      match s
      case CompareString(f, op, t) => r := PushComparison(f, op, Str(t));
      case CompareI64(f, op, i) => r := PushComparison(f, op, I64(i));
      case CompareF64(f, op, x) => r := PushComparison(f, op, F64(x));
      case CompareBool(f, op, b) => r := PushComparison(f, op, Bool(b));
      case Unary(f, op) => r := PushUnary(f, op);
      case Combine(op, count) => r := PopCombine(op, count);
    }
  }

  /** Replay steps onto a builder; no steps is no filter, and anything but one result is refused. */
  method BuildFilter(steps: seq<Step>) returns (r: Parsed<Option<Filter>>)
    ensures steps == [] ==> r == Ok(None)
    ensures steps != [] ==>
      (r.Ok? <==> Run([], steps).Ok? && |Run([], steps).value| == 1)
    ensures steps != [] && r.Ok? ==> r.value.Some? && Run([], steps) == Ok([r.value.value])
  {
    hide Execute;
    if steps == [] {
      return Ok(None);
    }
    var f := new VdbFilter();
    assert steps[0..] == steps;
    for i := 0 to |steps|
      invariant Run(f.stack, steps[i..]) == Run([], steps)
      invariant fresh(f)
    {
      assert steps[i..][1..] == steps[i + 1..];
      var _ :- f.Take(steps[i]);
    }
    if |f.stack| != 1 {
      return Err(());
    }
    assert f.stack == [f.stack[0]];
    r := Ok(Some(f.stack[0]));
  }

  lemma NothingCompiles(v: Js)
    requires v == JsNull || v == JsObject([])
    ensures Compile(v) == Ok([])
  {
    var none: seq<Step> := [];
    if v.JsObject? {
      EmptyObject(v.props, (x: Js) => None);
      assert none + Conjoin(0) == none;
    }
  }

  /** From a query object to the engine's filter: what a search is given. */
  method FilterOf(v: Js, ghost coerce: Coercion) returns (r: Parsed<Option<Filter>>)
    ensures r.Ok? <==> Compile(v).Ok?
    ensures r == Ok(None) <==> v == JsNull || v == JsObject([])
    ensures r.Ok? && r.value.Some? ==>
      Parse(v, coerce).Ok? && forall d: Document :: Matches(r.value.value, d) == Matches(Parse(v, coerce).value, d)
  {
    hide Compile, Run, Parse, Matches;
    if v == JsNull || v == JsObject([]) {
      NothingCompiles(v);
    }
    var steps :- CompileFilter(v);
    ghost var g := CompilerCorrect(v, coerce);
    r := BuildFilter(steps);
  }

  // ----- node/src/filter.rs -----

  method ScalarsOf(vs: seq<Js>) returns (r: Parsed<seq<Value>>)
    ensures r == Scalars(vs)
  {
    hide Scalar;
    var out: seq<Value> := [];
    JoinedStarts(Scalars(vs));
    assert vs[0..] == vs;
    for i := 0 to |vs|
      invariant Joined(out, Scalars(vs[i..])) == Scalars(vs)
    {
      assert vs[i..][1..] == vs[i + 1..];
      var v :- Scalar(vs[i]);
      JoinedOne(out, [v], Scalars(vs[i + 1..]));
      out := out + [v];
    }
    JoinedEnds(out);
    r := Ok(out);
  }

  method ParseOne(field: Path, op: Operator, raw: Js) returns (r: Parsed<Filter>)
    ensures r == ParseOperator(field, op, raw)
  {
    hide Scalar, Scalars;
    if op != OpIn && op != OpNin {
      return ParseOperator(field, op, raw);
    }
    if !raw.JsArray? {
      return Err(());
    }
    var vs :- ScalarsOf(raw.items);
    r := Ok(if op == OpIn then In(field, vs) else Nin(field, vs));
  }

  method ParseOperatorObject(field: Path, ops: seq<Prop>) returns (r: Parsed<Filter>)
    ensures r == ParseField(field, JsObject(ops))
  {
    hide ParseOperator, NodeOperator;
    var clauses: seq<Filter> := [];
    JoinedStarts(ParseOperators(field, ops));
    assert ops[0..] == ops;
    for i := 0 to |ops|
      invariant Joined(clauses, ParseOperators(field, ops[i..])) == ParseOperators(field, ops)
    {
      assert ops[i..][1..] == ops[i + 1..];
      var c :- ParseOne(field, NodeOperator(ops[i].key), ops[i].value);
      JoinedOne(clauses, [c], ParseOperators(field, ops[i + 1..]));
      clauses := clauses + [c];
    }
    JoinedEnds(clauses);
    r := Ok(Conjunction(clauses));
  }

  method ParseNode(v: Js, depth: nat, coerce: Coercion) returns (r: Parsed<Filter>)
    ensures r == ParseObject(v, depth, coerce)
    decreases Max(0, MAX_NESTING + 1 - depth), 2
  {
    hide ParseClause, Conjunction;
    if depth > MAX_NESTING {
      return Err(());
    }
    var props := Properties(v, coerce);
    if props.None? {
      return Err(());
    }
    var ps := props.value;
    var clauses: seq<Filter> := [];
    JoinedStarts(ParseClauses(ps, depth, coerce));
    assert ps[0..] == ps;
    for i := 0 to |ps|
      invariant Joined(clauses, ParseClauses(ps[i..], depth, coerce)) == ParseClauses(ps, depth, coerce)
    {
      assert ps[i..][1..] == ps[i + 1..];
      var c :- ParseNodeClause(ps[i], depth, coerce);
      JoinedOne(clauses, [c], ParseClauses(ps[i + 1..], depth, coerce));
      clauses := clauses + [c];
    }
    JoinedEnds(clauses);
    r := Ok(Conjunction(clauses));
  }

  method ParseNodeClause(p: Prop, depth: nat, coerce: Coercion) returns (r: Parsed<Filter>)
    requires depth <= MAX_NESTING
    ensures r == ParseClause(p, depth, coerce)
    decreases MAX_NESTING + 1 - depth, 1
  {
    hide ParseObject, ParseList, ParseField, NodeKey;
    match NodeKey(p.key)
    case AndKey =>
      if !p.value.JsArray? { return Err(()); }
      var fs :- ParseNodeList(p.value.items, depth + 1, coerce);
      r := Ok(And(fs));
    case OrKey =>
      if !p.value.JsArray? { return Err(()); }
      var fs :- ParseNodeList(p.value.items, depth + 1, coerce);
      r := Ok(Or(fs));
    case NotKey =>
      if !p.value.JsObject? && !p.value.JsArray? { return Err(()); }
      var f :- ParseNode(p.value, depth + 1, coerce);
      r := Ok(Not(f));
    case UnknownKey => r := Err(());
    case FieldKey =>
      if p.value.JsObject? {
        r := ParseOperatorObject(p.key, p.value.props);
      } else {
        r := ParseField(p.key, p.value);
      }
  }

  method ParseNodeList(items: seq<Js>, depth: nat, coerce: Coercion) returns (r: Parsed<seq<Filter>>)
    ensures r == ParseList(items, depth, coerce)
    decreases Max(0, MAX_NESTING + 1 - depth), 3
  {
    hide ParseObject;
    var out: seq<Filter> := [];
    JoinedStarts(ParseList(items, depth, coerce));
    assert items[0..] == items;
    for i := 0 to |items|
      invariant Joined(out, ParseList(items[i..], depth, coerce)) == ParseList(items, depth, coerce)
    {
      assert items[i..][1..] == items[i + 1..];
      var f :- ParseNode(items[i], depth, coerce);
      JoinedOne(out, [f], ParseList(items[i + 1..], depth, coerce));
      out := out + [f];
    }
    JoinedEnds(out);
    r := Ok(out);
  }
}
