/**
  The query-object compiler (filter.js), and the proof that its steps, run on the stack
  machine, mean what the Node binding means.
*/
module FilterCompile {
  import opened Prelude
  import opened Bytes
  import opened Value
  import opened Filter
  import opened FilterInput
  import opened FilterNode
  import opened FilterMachine
  import Varint

  // ----- The codes the compiler writes -----

  const EQ := 1
  const NE := 2
  const GT := 3
  const GTE := 4
  const LT := 5
  const LTE := 6
  const STARTS_WITH := 7
  const CONTAINS := 8
  const EXISTS := 1
  const IS_NULL := 2
  const AND := 1
  const OR := 2
  const NOT := 3

  // ----- The names the compiler switches on -----

  function ScriptKey(k: seq<Byte>): Key {
    if k == Ascii("$and") then AndKey
    else if k == Ascii("$or") then OrKey
    else if k == Ascii("$not") then NotKey
    else if k != [] && k[0] == '$' as int then UnknownKey
    else FieldKey
  }

  function ScriptOperator(k: seq<Byte>): Operator {
    if k == Ascii("$eq") then OpEq
    else if k == Ascii("$ne") then OpNe
    else if k == Ascii("$gt") then OpGt
    else if k == Ascii("$gte") then OpGte
    else if k == Ascii("$lt") then OpLt
    else if k == Ascii("$lte") then OpLte
    else if k == Ascii("$contains") then OpContains
    else if k == Ascii("$startsWith") then OpStartsWith
    else if k == Ascii("$in") then OpIn
    else if k == Ascii("$nin") then OpNin
    else if k == Ascii("$exists") then OpExists
    else OpUnknown
  }

  /** The two parsers, each with its own table, take every name to mean the same. */
  lemma NamesAgree(k: seq<Byte>)
    ensures ScriptKey(k) == NodeKey(k) && ScriptOperator(k) == NodeOperator(k)
  {
    hide Ascii;
  }

  // ----- The compiler: the steps each part pushes -----

  function Conjoin(count: nat): seq<Step> {
    if count > 1 then [Combine(AND, count)] else []
  }

  function PushCompare(field: Path, op: int, v: Js): Parsed<seq<Step>> {
    match v
    case JsNull =>
      if op == EQ then Ok([Unary(field, IS_NULL)])
      else if op == NE then Ok([Unary(field, IS_NULL), Combine(NOT, 1)])
      else Err(())
    case JsString(s) => Ok([CompareString(field, op, s)])
    case JsBool(b) => Ok([CompareBool(field, op, b)])
    case JsNumber(Whole(i)) => Ok([CompareI64(field, op, i)])
    case JsNumber(Fraction(bits)) => Ok([CompareF64(field, op, bits)])
    case _ => Err(())
  }

  function PushEqualities(field: Path, vs: seq<Js>): Parsed<seq<Step>> {
    if vs == [] then Ok([])
    else
      var s :- PushCompare(field, EQ, vs[0]);
      var rest :- PushEqualities(field, vs[1..]);
      Ok(s + rest)
  }

  function PushMembers(field: Path, v: Js): Parsed<seq<Step>> {
    if !v.JsArray? || v.items == [] then Err(())
    else
      var s :- PushEqualities(field, v.items);
      Ok(s + if |v.items| > 1 then [Combine(OR, |v.items|)] else [])
  }

  function WalkOperator(field: Path, op: Operator, raw: Js): Parsed<seq<Step>> {
    match op
    case OpEq => PushCompare(field, EQ, raw)
    case OpNe => PushCompare(field, NE, raw)
    case OpGt => PushCompare(field, GT, raw)
    case OpGte => PushCompare(field, GTE, raw)
    case OpLt => PushCompare(field, LT, raw)
    case OpLte => PushCompare(field, LTE, raw)
    case OpContains => PushCompare(field, CONTAINS, raw)
    case OpStartsWith => if raw.JsString? then Ok([CompareString(field, STARTS_WITH, raw.s)]) else Err(())
    case OpIn => PushMembers(field, raw)
    case OpNin => var s :- PushMembers(field, raw); Ok(s + [Combine(NOT, 1)])
    case OpExists => Ok([Unary(field, if Truthy(raw) then EXISTS else IS_NULL)])
    case OpUnknown => Err(())
  }

  function WalkOperators(field: Path, ops: seq<Prop>): Parsed<seq<Step>> {
    if ops == [] then Ok([])
    else
      var s :- WalkOperator(field, ScriptOperator(ops[0].key), ops[0].value);
      var rest :- WalkOperators(field, ops[1..]);
      Ok(s + rest)
  }

  function WalkField(field: Path, v: Js): Parsed<seq<Step>> {
    match v
    case JsArray(_) => Err(())
    case JsObject(ops) =>
      if ops == [] then Err(())
      else
        var s :- WalkOperators(field, ops);
        Ok(s + Conjoin(|ops|))
    case _ => PushCompare(field, EQ, v)
  }

  /** A nested filter: a plain object, not empty, joined into one expression. */
  function WalkNested(v: Js, depth: nat): Parsed<seq<Step>>
    decreases Max(0, MAX_NESTING + 1 - depth), 2
  {
    if !v.JsObject? || depth > MAX_NESTING || v.props == [] then Err(())
    else
      var s :- WalkClauses(v.props, depth);
      Ok(s + Conjoin(|v.props|))
  }

  function WalkClauses(props: seq<Prop>, depth: nat): Parsed<seq<Step>>
    requires depth <= MAX_NESTING
    decreases MAX_NESTING + 1 - depth, 1, |props|
  {
    if props == [] then Ok([])
    else
      var s :- WalkClause(props[0], depth);
      var rest :- WalkClauses(props[1..], depth);
      Ok(s + rest)
  }

  function WalkClause(p: Prop, depth: nat): Parsed<seq<Step>>
    requires depth <= MAX_NESTING
    decreases MAX_NESTING + 1 - depth, 0
  {
    match ScriptKey(p.key)
    case AndKey => WalkList(AND, p.value, depth)
    case OrKey => WalkList(OR, p.value, depth)
    case NotKey => var s :- WalkNested(p.value, depth + 1); Ok(s + [Combine(NOT, 1)])
    case UnknownKey => Err(())
    case FieldKey => WalkField(p.key, p.value)
  }

  function WalkList(op: int, v: Js, depth: nat): Parsed<seq<Step>>
    requires depth <= MAX_NESTING
    decreases MAX_NESTING + 1 - depth, 0, 0
  {
    if !v.JsArray? || v.items == [] then Err(())
    else
      var s :- WalkItems(v.items, depth + 1);
      Ok(s + if |v.items| > 1 then [Combine(op, |v.items|)] else [])
  }

  function WalkItems(items: seq<Js>, depth: nat): Parsed<seq<Step>>
    decreases Max(0, MAX_NESTING + 1 - depth), 3, |items|
  {
    if items == [] then Ok([])
    else
      var s :- WalkNested(items[0], depth);
      var rest :- WalkItems(items[1..], depth);
      Ok(s + rest)
  }

  /** No filter and the empty filter both compile to no steps. */
  function Compile(v: Js): Parsed<seq<Step>> {
    match v
    case JsNull => Ok([])
    case JsObject(props) =>
      var s :- WalkClauses(props, 1);
      Ok(s + Conjoin(|props|))
    case _ => Err(())
  }

  // ----- Running concatenated steps -----

  lemma {:induction false} RunSplit(stack: seq<Filter>, a: seq<Step>, b: seq<Step>)
    ensures Run(stack, a + b) == if Run(stack, a).Ok? then Run(Run(stack, a).value, b) else Run(stack, a)
    decreases |a|
  {
    hide Execute;
    if a == [] {
      assert a + b == b;
    } else {
      assert (a + b)[1..] == a[1..] + b;
      if Execute(stack, a[0]).Ok? {
        RunSplit(Execute(stack, a[0]).value, a[1..], b);
      }
    }
  }

  /** The steps, run on any stack, leave it as it was with `gs` on top. */
  ghost predicate Pushes(steps: seq<Step>, gs: seq<Filter>) {
    forall stack: seq<Filter> :: Run(stack, steps) == Ok(stack + gs)
  }

  lemma PushesBoth(a: seq<Step>, gs: seq<Filter>, b: seq<Step>, hs: seq<Filter>)
    requires Pushes(a, gs) && Pushes(b, hs)
    ensures Pushes(a + b, gs + hs)
  {
    hide Run;
    forall stack: seq<Filter> ensures Run(stack, a + b) == Ok(stack + (gs + hs)) {
      RunSplit(stack, a, b);
      Associate(stack, gs, hs);
      assert Run(stack, a) == Ok(stack + gs) && Run(stack + gs, b) == Ok(stack + gs + hs);
    }
  }

  lemma PushesNothing()
    ensures Pushes([], [])
  {
    forall stack: seq<Filter> ensures Run(stack, []) == Ok(stack + []) {
      assert stack + [] == stack;
    }
  }

  lemma RunOne(stack: seq<Filter>, s: Step)
    ensures Run(stack, [s]) == Execute(stack, s)
  {
    hide Execute;
    assert [s][1..] == [];
  }

  lemma PushesLeaf(s: Step)
    requires !s.Combine? && LeafFilter(s).Ok?
    ensures Pushes([s], [LeafFilter(s).value])
  {
    hide Run, LeafFilter;
    forall stack: seq<Filter> ensures Run(stack, [s]) == Ok(stack + [LeafFilter(s).value]) {
      RunOne(stack, s);
    }
  }

  /** A combinator over exactly what the steps before it pushed. */
  lemma PushesCombined(a: seq<Step>, gs: seq<Filter>, op: int)
    requires Pushes(a, gs) && gs != [] && Combined(op, gs).Ok?
    ensures Pushes(a + [Combine(op, |gs|)], [Combined(op, gs).value])
  {
    hide Run, Combined;
    var c := Combine(op, |gs|);
    forall stack: seq<Filter> ensures Run(stack, a + [c]) == Ok(stack + [Combined(op, gs).value]) {
      RunSplit(stack, a, [c]);
      assert Run(stack, a) == Ok(stack + gs);
      RunOne(stack + gs, c);
      assert (stack + gs)[|stack|..] == gs && (stack + gs)[..|stack|] == stack;
    }
  }

  lemma NoStepsAdded(a: seq<Step>, gs: seq<Filter>)
    requires Pushes(a, gs)
    ensures Pushes(a + [], gs)
  {
    assert a + [] == a;
  }

  // ----- Each part compiles to what Node builds -----

  /** The steps push one expression, and it means what `f` means. */
  ghost predicate Compiles(steps: seq<Step>, g: Filter, f: Filter) {
    Pushes(steps, [g]) && Equivalent(g, f)
  }

  lemma Reflexive(f: Filter)
    ensures Equivalent(f, f)
  {
  }

  lemma {:induction false} CompareCompiles(field: Path, op: int, v: Js) returns (g: Filter)
    requires PushCompare(field, op, v).Ok? && op in {EQ, NE, GT, GTE, LT, LTE, CONTAINS}
    ensures Scalar(v).Ok? && Comparison(field, op, Scalar(v).value).Ok?
    ensures Compiles(PushCompare(field, op, v).value, g, Comparison(field, op, Scalar(v).value).value)
  {
    hide Run, Pushes, Equivalent;
    g := Comparison(field, op, Scalar(v).value).value;
    Reflexive(g);
    match v {
      case JsNull =>
        NullEquality(field);
        PushesLeaf(Unary(field, IS_NULL));
        g := IsNull(field);
        if op == NE {
          PushesCombined([Unary(field, IS_NULL)], [g], NOT);
          assert [Unary(field, IS_NULL)] + [Combine(NOT, 1)] == [Unary(field, IS_NULL), Combine(NOT, 1)];
          g := Not(g);
        }
      case JsString(s) => PushesLeaf(CompareString(field, op, s));
      case JsBool(b) => PushesLeaf(CompareBool(field, op, b));
      case JsNumber(Whole(i)) => PushesLeaf(CompareI64(field, op, i));
      case JsNumber(Fraction(bits)) => PushesLeaf(CompareF64(field, op, bits));
    }
  }

  /** Compiled parts, one after another. */
  ghost predicate CompilesAll(steps: seq<Step>, gs: seq<Filter>, fs: seq<Filter>) {
    Pushes(steps, gs) && AllEquivalent(gs, fs)
  }

  lemma CompilesNone()
    ensures CompilesAll([], [], [])
  {
    hide Run;
    PushesNothing();
  }

  lemma CompilesCons(s: seq<Step>, g: Filter, f: Filter, rest: seq<Step>, gs: seq<Filter>, fs: seq<Filter>)
    requires Compiles(s, g, f) && CompilesAll(rest, gs, fs)
    ensures CompilesAll(s + rest, [g] + gs, [f] + fs)
  {
    hide Run, Pushes, Equivalent;
    PushesBoth(s, [g], rest, gs);
  }

  /** A combinator over several parts, or the one part alone, means the combination. */
  lemma CompilesCombined(steps: seq<Step>, gs: seq<Filter>, fs: seq<Filter>, op: int) returns (g: Filter)
    requires CompilesAll(steps, gs, fs) && gs != [] && (op == AND || op == OR)
    ensures Compiles(steps + (if |gs| > 1 then [Combine(op, |gs|)] else []), g, if op == AND then And(fs) else Or(fs))
  {
    hide Run, Pushes, Equivalent;
    AndOrAlike(gs, fs);
    if |gs| > 1 {
      PushesCombined(steps, gs, op);
      g := if op == AND then And(gs) else Or(gs);
    } else {
      g := gs[0];
      assert gs == [g];
      NoStepsAdded(steps, gs);
      SoleChild(g);
      Chain(g, if op == AND then And(gs) else Or(gs), if op == AND then And(fs) else Or(fs));
    }
  }

  /** Clauses joined as the compiler joins them mean what Node's conjunction means. */
  lemma CompilesConjoined(steps: seq<Step>, gs: seq<Filter>, fs: seq<Filter>) returns (g: Filter)
    requires CompilesAll(steps, gs, fs) && gs != []
    ensures Compiles(steps + Conjoin(|gs|), g, Conjunction(fs))
  {
    hide Run, Pushes, Equivalent;
    if |gs| > 1 {
      g := CompilesCombined(steps, gs, fs, AND);
    } else {
      g := gs[0];
      assert gs == [g];
      NoStepsAdded(steps, gs);
    }
  }

  lemma CompilesNegated(steps: seq<Step>, g: Filter, f: Filter)
    requires Compiles(steps, g, f)
    ensures Compiles(steps + [Combine(NOT, 1)], Not(g), Not(f))
  {
    hide Run, Pushes, Equivalent;
    PushesCombined(steps, [g], NOT);
    NotAlike(g, f);
  }

  lemma {:induction false} EqualitiesCompile(field: Path, vs: seq<Js>) returns (gs: seq<Filter>)
    requires PushEqualities(field, vs).Ok?
    ensures Scalars(vs).Ok? && |Scalars(vs).value| == |vs| == |gs|
    ensures CompilesAll(PushEqualities(field, vs).value, gs, Equalities(field, Scalars(vs).value))
  {
    hide Run, Pushes, Equivalent, PushCompare, Scalar;
    if vs == [] {
      gs := [];
      CompilesNone();
    } else {
      var g := CompareCompiles(field, EQ, vs[0]);
      var rest := EqualitiesCompile(field, vs[1..]);
      gs := [g] + rest;
      var v, more := Scalar(vs[0]).value, Scalars(vs[1..]).value;
      CompilesCons(PushCompare(field, EQ, vs[0]).value, g, Eq(field, v), PushEqualities(field, vs[1..]).value, rest, Equalities(field, more));
      assert Equalities(field, [v] + more) == [Eq(field, v)] + Equalities(field, more);
    }
  }

  lemma MembersCompile(field: Path, v: Js) returns (g: Filter)
    requires PushMembers(field, v).Ok?
    ensures ScalarList(v).Ok? && Compiles(PushMembers(field, v).value, g, In(field, ScalarList(v).value))
    ensures Compiles(PushMembers(field, v).value + [Combine(NOT, 1)], Not(g), Nin(field, ScalarList(v).value))
  {
    hide Run, Pushes, Equivalent, PushEqualities, Scalars;
    var gs := EqualitiesCompile(field, v.items);
    var vs := Scalars(v.items).value;
    var steps := PushMembers(field, v).value;
    g := CompilesCombined(PushEqualities(field, v.items).value, gs, Equalities(field, vs), OR);
    Membership(field, vs);
    CompilesNegated(steps, g, Or(Equalities(field, vs)));
    Chain(g, Or(Equalities(field, vs)), In(field, vs));
    Chain(Not(g), Not(Or(Equalities(field, vs))), Nin(field, vs));
  }

  lemma OperatorCompiles(field: Path, op: Operator, raw: Js) returns (g: Filter)
    requires WalkOperator(field, op, raw).Ok?
    ensures ParseOperator(field, op, raw).Ok?
    ensures Compiles(WalkOperator(field, op, raw).value, g, ParseOperator(field, op, raw).value)
  {
    hide Run, Pushes, Equivalent, PushCompare, PushMembers, Scalar, ScalarList, Compiles;
    match op
    case OpEq => g := CompareCompiles(field, EQ, raw);
    case OpNe => g := CompareCompiles(field, NE, raw);
    case OpGt => g := CompareCompiles(field, GT, raw);
    case OpGte => g := CompareCompiles(field, GTE, raw);
    case OpLt => g := CompareCompiles(field, LT, raw);
    case OpLte => g := CompareCompiles(field, LTE, raw);
    case OpContains => g := CompareCompiles(field, CONTAINS, raw);
    case OpStartsWith =>
      g := LeafCompiles(CompareString(field, STARTS_WITH, raw.s));
      ScalarString(raw);
    case OpIn => g := MembersCompile(field, raw);
    case OpNin =>
      var m := MembersCompile(field, raw);
      g := Not(m);
    case OpExists => g := LeafCompiles(Unary(field, if Truthy(raw) then EXISTS else IS_NULL));
  }

  lemma ScalarString(v: Js)
    requires v.JsString?
    ensures Scalar(v) == Ok(Str(v.s))
  {
  }

  lemma LeafCompiles(s: Step) returns (g: Filter)
    requires !s.Combine? && LeafFilter(s).Ok?
    ensures Compiles([s], g, LeafFilter(s).value)
  {
    hide Run, Pushes, Equivalent, LeafFilter;
    g := LeafFilter(s).value;
    PushesLeaf(s);
    Reflexive(g);
  }

  lemma {:induction false} OperatorsCompile(field: Path, ops: seq<Prop>) returns (gs: seq<Filter>)
    requires WalkOperators(field, ops).Ok?
    ensures ParseOperators(field, ops).Ok? && |gs| == |ops| == |ParseOperators(field, ops).value|
    ensures CompilesAll(WalkOperators(field, ops).value, gs, ParseOperators(field, ops).value)
  {
    hide Run, Pushes, Equivalent, WalkOperator, ParseOperator, ScriptOperator, NodeOperator, CompilesAll, Compiles;
    if ops == [] {
      gs := [];
      CompilesNone();
    } else {
      NamesAgree(ops[0].key);
      var op, raw := ScriptOperator(ops[0].key), ops[0].value;
      var g := OperatorCompiles(field, op, raw);
      var rest := OperatorsCompile(field, ops[1..]);
      gs := [g] + rest;
      CompilesCons(WalkOperator(field, op, raw).value, g, ParseOperator(field, op, raw).value,
                   WalkOperators(field, ops[1..]).value, rest, ParseOperators(field, ops[1..]).value);
    }
  }

  lemma FieldCompiles(field: Path, v: Js) returns (g: Filter)
    requires WalkField(field, v).Ok?
    ensures ParseField(field, v).Ok? && Compiles(WalkField(field, v).value, g, ParseField(field, v).value)
  {
    hide Run, Pushes, Equivalent, PushCompare, Scalar, WalkOperators, ParseOperators, CompilesAll, Compiles;
    if v.JsObject? {
      var gs := OperatorsCompile(field, v.props);
      g := CompilesConjoined(WalkOperators(field, v.props).value, gs, ParseOperators(field, v.props).value);
    } else {
      g := CompareCompiles(field, EQ, v);
    }
  }

  lemma {:induction false} NestedCompiles(v: Js, depth: nat, coerce: Coercion) returns (g: Filter)
    requires WalkNested(v, depth).Ok?
    ensures ParseObject(v, depth, coerce).Ok?
    ensures Compiles(WalkNested(v, depth).value, g, ParseObject(v, depth, coerce).value)
    decreases Max(0, MAX_NESTING + 1 - depth), 2
  {
    hide Run, Pushes, Equivalent, WalkClauses, ParseClauses, CompilesAll, Compiles, Conjunction;
    var gs := ClausesCompile(v.props, depth, coerce);
    g := CompilesConjoined(WalkClauses(v.props, depth).value, gs, ParseClauses(v.props, depth, coerce).value);
  }

  lemma {:induction false} ClausesCompile(props: seq<Prop>, depth: nat, coerce: Coercion) returns (gs: seq<Filter>)
    requires depth <= MAX_NESTING && WalkClauses(props, depth).Ok?
    ensures ParseClauses(props, depth, coerce).Ok? && |gs| == |props| == |ParseClauses(props, depth, coerce).value|
    ensures CompilesAll(WalkClauses(props, depth).value, gs, ParseClauses(props, depth, coerce).value)
    decreases MAX_NESTING + 1 - depth, 1, |props|
  {
    hide Run, Pushes, Equivalent, WalkClause, ParseClause, CompilesAll, Compiles;
    if props == [] {
      gs := [];
      CompilesNone();
    } else {
      var g := ClauseCompiles(props[0], depth, coerce);
      var rest := ClausesCompile(props[1..], depth, coerce);
      gs := [g] + rest;
      CompilesCons(WalkClause(props[0], depth).value, g, ParseClause(props[0], depth, coerce).value,
                   WalkClauses(props[1..], depth).value, rest, ParseClauses(props[1..], depth, coerce).value);
    }
  }

  lemma {:induction false} ClauseCompiles(p: Prop, depth: nat, coerce: Coercion) returns (g: Filter)
    requires depth <= MAX_NESTING && WalkClause(p, depth).Ok?
    ensures ParseClause(p, depth, coerce).Ok?
    ensures Compiles(WalkClause(p, depth).value, g, ParseClause(p, depth, coerce).value)
    decreases MAX_NESTING + 1 - depth, 0
  {
    hide Run, Pushes, Equivalent, WalkNested, WalkItems, ParseObject, ParseList, WalkField, ParseField, CompilesAll, Compiles, ScriptKey, NodeKey;
    NamesAgree(p.key);
    match ScriptKey(p.key)
    case AndKey =>
      var gs := ItemsCompile(p.value.items, depth + 1, coerce);
      g := CompilesCombined(WalkItems(p.value.items, depth + 1).value, gs, ParseList(p.value.items, depth + 1, coerce).value, AND);
    case OrKey =>
      var gs := ItemsCompile(p.value.items, depth + 1, coerce);
      g := CompilesCombined(WalkItems(p.value.items, depth + 1).value, gs, ParseList(p.value.items, depth + 1, coerce).value, OR);
    case NotKey =>
      var n := NestedCompiles(p.value, depth + 1, coerce);
      CompilesNegated(WalkNested(p.value, depth + 1).value, n, ParseObject(p.value, depth + 1, coerce).value);
      g := Not(n);
      NestedIsObject(p.value, depth + 1);
    case FieldKey => g := FieldCompiles(p.key, p.value);
  }

  lemma NestedIsObject(v: Js, depth: nat)
    requires WalkNested(v, depth).Ok?
    ensures v.JsObject?
  {
  }

  lemma {:induction false} ItemsCompile(items: seq<Js>, depth: nat, coerce: Coercion) returns (gs: seq<Filter>)
    requires WalkItems(items, depth).Ok?
    ensures ParseList(items, depth, coerce).Ok? && |gs| == |items| == |ParseList(items, depth, coerce).value|
    ensures CompilesAll(WalkItems(items, depth).value, gs, ParseList(items, depth, coerce).value)
    decreases Max(0, MAX_NESTING + 1 - depth), 3, |items|
  {
    hide Run, Pushes, Equivalent, WalkNested, ParseObject, CompilesAll, Compiles;
    if items == [] {
      gs := [];
      CompilesNone();
    } else {
      var g := NestedCompiles(items[0], depth, coerce);
      var rest := ItemsCompile(items[1..], depth, coerce);
      gs := [g] + rest;
      CompilesCons(WalkNested(items[0], depth).value, g, ParseObject(items[0], depth, coerce).value,
                   WalkItems(items[1..], depth).value, rest, ParseList(items[1..], depth, coerce).value);
    }
  }

  // ----- The whole compiler -----

  /**
    Compiling either throws, or yields no steps and the filter has no clause, or yields
    steps that run from an empty stack to exactly one filter; Node then accepts the object
    too, and the two filters agree on every document.
  */
  lemma CompilerCorrect(v: Js, coerce: Coercion) returns (g: Filter)
    requires Compile(v).Ok?
    ensures Compile(v).value == [] <==> v == JsNull || v == JsObject([])
    ensures v == JsObject([]) ==> Parse(v, coerce).Ok? && forall d: Document :: Matches(Parse(v, coerce).value, d)
    ensures Compile(v).value != [] ==>
      && Run([], Compile(v).value) == Ok([g])
      && Parse(v, coerce).Ok? && forall d: Document :: Matches(g, d) == Matches(Parse(v, coerce).value, d)
  {
    hide Run, Pushes, WalkClauses, ParseClauses, CompilesAll, Conjunction, Matches, Equivalent;
    g := And([]);
    if v == JsObject([]) {
      EmptyObject(v.props, coerce);
    } else if v.JsObject? {
      var steps := Compile(v).value;
      assert WalkNested(v, 1) == Ok(steps);
      g := NestedCompiles(v, 1, coerce);
      RunsAlone(steps, g);
      SameEverywhere(g, Parse(v, coerce).value);
    }
  }

  lemma EmptyObject(props: seq<Prop>, coerce: Coercion)
    requires props == []
    ensures WalkClauses(props, 1) == Ok([]) && Parse(JsObject(props), coerce) == Ok(And([]))
    ensures forall d: Document :: Matches(And([]), d)
  {
  }

  lemma SameEverywhere(g: Filter, f: Filter)
    requires Equivalent(g, f)
    ensures forall d: Document :: Matches(g, d) == Matches(f, d)
  {
    hide Matches;
  }

  lemma RunsAlone(steps: seq<Step>, g: Filter)
    requires Pushes(steps, [g])
    ensures Run([], steps) == Ok([g]) && steps != []
  {
    assert Run([], steps) == Ok([] + [g]);
    assert [] + [g] == [g];
  }
}
