/** The tree the Node binding builds from a query object (node/src/filter.rs). */
module FilterNode {
  import opened Prelude
  import opened Bytes
  import opened Value
  import opened Filter
  import opened FilterInput

  /** A refusal; message text is not modelled. */
  type Parsed<T> = Result<T, ()>

  /** What the binding layer makes of a value that is not a plain object when asked for its properties. */
  type Coercion = Js -> Option<seq<Prop>>

  // ----- The names the binding matches -----

  function NodeKey(k: seq<Byte>): Key {
    if k == Ascii("$and") then AndKey
    else if k == Ascii("$or") then OrKey
    else if k == Ascii("$not") then NotKey
    else if k != [] && k[0] == '$' as int then UnknownKey
    else FieldKey
  }

  function NodeOperator(k: seq<Byte>): Operator {
    if k == Ascii("$eq") then OpEq
    else if k == Ascii("$ne") then OpNe
    else if k == Ascii("$gt") then OpGt
    else if k == Ascii("$gte") then OpGte
    else if k == Ascii("$lt") then OpLt
    else if k == Ascii("$lte") then OpLte
    else if k == Ascii("$contains") then OpContains
    else if k == Ascii("$startsWith") then OpStartsWith
    else if k == Ascii("$in") then OpIn
    else if k == Ascii("$nin") then OpNin
    else if k == Ascii("$exists") then OpExists
    else OpUnknown
  }

  // ----- Parsing -----

  function Scalar(v: Js): Parsed<Value> {
    match v
    case JsString(s) => Ok(Str(s))
    case JsBool(b) => Ok(Bool(b))
    case JsNull => Ok(Null)
    case JsNumber(Whole(i)) => Ok(I64(i))
    case JsNumber(Fraction(bits)) => Ok(F64(bits))
    case JsNumber(NotFinite(bits, _)) => Ok(F64(bits))
    case _ => Err(())
  }

  function Scalars(vs: seq<Js>): Parsed<seq<Value>> {
    if vs == [] then Ok([])
    else
      var v :- Scalar(vs[0]);
      var rest :- Scalars(vs[1..]);
      Ok([v] + rest)
  }

  function ScalarList(v: Js): Parsed<seq<Value>> {
    if v.JsArray? then Scalars(v.items) else Err(())
  }

  /** Several clauses mean conjunction; one means itself. */
  function Conjunction(clauses: seq<Filter>): Filter {
    if |clauses| == 1 then clauses[0] else And(clauses)
  }

  function ParseOperator(field: Path, op: Operator, raw: Js): Parsed<Filter> {
    match op
    case OpEq => var v :- Scalar(raw); Ok(Eq(field, v))
    case OpNe => var v :- Scalar(raw); Ok(Ne(field, v))
    case OpGt => var v :- Scalar(raw); Ok(Gt(field, v))
    case OpGte => var v :- Scalar(raw); Ok(Gte(field, v))
    case OpLt => var v :- Scalar(raw); Ok(Lt(field, v))
    case OpLte => var v :- Scalar(raw); Ok(Lte(field, v))
    case OpContains => var v :- Scalar(raw); Ok(Contains(field, v))
    case OpStartsWith => var v :- Scalar(raw); if v.Str? then Ok(StartsWith(field, v.text)) else Err(())
    case OpIn => var vs :- ScalarList(raw); Ok(In(field, vs))
    case OpNin => var vs :- ScalarList(raw); Ok(Nin(field, vs))
    case OpExists => Ok(if Truthy(raw) then Exists(field) else IsNull(field))
    case OpUnknown => Err(())
  }

  function ParseOperators(field: Path, ops: seq<Prop>): Parsed<seq<Filter>> {
    if ops == [] then Ok([])
    else
      var c :- ParseOperator(field, NodeOperator(ops[0].key), ops[0].value);
      var rest :- ParseOperators(field, ops[1..]);
      Ok([c] + rest)
  }

  function ParseField(field: Path, v: Js): Parsed<Filter> {
    match v
    case JsArray(_) => Err(())
    case JsObject(ops) => var cs :- ParseOperators(field, ops); Ok(Conjunction(cs))
    case _ => var s :- Scalar(v); Ok(Eq(field, s))
  }

  function Properties(v: Js, coerce: Coercion): Option<seq<Prop>> {
    if v.JsObject? then Some(v.props) else coerce(v)
  }

  function ParseObject(v: Js, depth: nat, coerce: Coercion): Parsed<Filter>
    decreases Max(0, MAX_NESTING + 1 - depth), 2
  {
    if depth > MAX_NESTING then Err(())
    else
      match Properties(v, coerce)
      case None => Err(())
      case Some(props) =>
        var cs :- ParseClauses(props, depth, coerce);
        Ok(Conjunction(cs))
  }

  function ParseClauses(props: seq<Prop>, depth: nat, coerce: Coercion): Parsed<seq<Filter>>
    requires depth <= MAX_NESTING
    decreases MAX_NESTING + 1 - depth, 1, |props|
  {
    if props == [] then Ok([])
    else
      var c :- ParseClause(props[0], depth, coerce);
      var rest :- ParseClauses(props[1..], depth, coerce);
      Ok([c] + rest)
  }

  function ParseClause(p: Prop, depth: nat, coerce: Coercion): Parsed<Filter>
    requires depth <= MAX_NESTING
    decreases MAX_NESTING + 1 - depth, 0
  {
    match NodeKey(p.key)
    case AndKey => if p.value.JsArray? then var fs :- ParseList(p.value.items, depth + 1, coerce); Ok(And(fs)) else Err(())
    case OrKey => if p.value.JsArray? then var fs :- ParseList(p.value.items, depth + 1, coerce); Ok(Or(fs)) else Err(())
    case NotKey =>
      if p.value.JsObject? || p.value.JsArray? then var f :- ParseObject(p.value, depth + 1, coerce); Ok(Not(f)) else Err(())
    case UnknownKey => Err(())
    case FieldKey => ParseField(p.key, p.value)
  }

  function ParseList(items: seq<Js>, depth: nat, coerce: Coercion): Parsed<seq<Filter>>
    decreases Max(0, MAX_NESTING + 1 - depth), 3, |items|
  {
    if items == [] then Ok([])
    else
      var f :- ParseObject(items[0], depth, coerce);
      var rest :- ParseList(items[1..], depth, coerce);
      Ok([f] + rest)
  }

  function Parse(v: Js, coerce: Coercion): Parsed<Filter> {
    ParseObject(v, 1, coerce)
  }
}
