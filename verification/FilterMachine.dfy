/** The postfix stack machine behind the C ABI (ffi/src/filter.rs). */
module FilterMachine {
  import opened Prelude
  import opened Bytes
  import opened Value
  import opened Filter
  import opened FilterNode
  import Varint

  const OP_EQ := 1
  const OP_NE := 2
  const OP_GT := 3
  const OP_GTE := 4
  const OP_LT := 5
  const OP_LTE := 6
  const OP_STARTS_WITH := 7
  const OP_CONTAINS := 8
  const UNARY_EXISTS := 1
  const UNARY_IS_NULL := 2
  const COMBINE_AND := 1
  const COMBINE_OR := 2
  const COMBINE_NOT := 3

  datatype Step =
    | CompareString(field: Path, op: int, text: seq<Byte>)
    | CompareI64(field: Path, op: int, integer: Varint.I64)
    | CompareF64(field: Path, op: int, bits: seq<Byte>)
    | CompareBool(field: Path, op: int, flag: bool)
    | Unary(field: Path, op: int)
    | Combine(op: int, count: nat)

  // ----- The stack machine -----

  function Comparison(field: Path, op: int, v: Value): Parsed<Filter> {
    if op == OP_EQ then Ok(Eq(field, v))
    else if op == OP_NE then Ok(Ne(field, v))
    else if op == OP_GT then Ok(Gt(field, v))
    else if op == OP_GTE then Ok(Gte(field, v))
    else if op == OP_LT then Ok(Lt(field, v))
    else if op == OP_LTE then Ok(Lte(field, v))
    else if op == OP_CONTAINS then Ok(Contains(field, v))
    else if op == OP_STARTS_WITH && v.Str? then Ok(StartsWith(field, v.text))
    else Err(())
  }

  function Combined(op: int, operands: seq<Filter>): Parsed<Filter>
    requires operands != []
  {
    if op == COMBINE_AND then Ok(And(operands))
    else if op == COMBINE_OR then Ok(Or(operands))
    else if op == COMBINE_NOT && |operands| == 1 then Ok(Not(operands[0]))
    else Err(())
  }

  /** The expression a leaf pushes. */
  function LeafFilter(s: Step): Parsed<Filter>
    requires !s.Combine?
  {
    match s
    case CompareString(f, op, t) => Comparison(f, op, Str(t))
    case CompareI64(f, op, i) => Comparison(f, op, I64(i))
    case CompareF64(f, op, r) => Comparison(f, op, F64(r))
    case CompareBool(f, op, b) => Comparison(f, op, Bool(b))
    case Unary(f, op) => if op == UNARY_EXISTS then Ok(Exists(f)) else if op == UNARY_IS_NULL then Ok(IsNull(f)) else Err(())
  }

  function Execute(stack: seq<Filter>, s: Step): Parsed<seq<Filter>> {
    if s.Combine? then
      if s.count == 0 || s.count > |stack| then Err(())
      else
        var n := |stack| - s.count;
        var c :- Combined(s.op, stack[n..]);
        Ok(stack[..n] + [c])
    else
      var f :- LeafFilter(s);
      Ok(stack + [f])
  }

  function Run(stack: seq<Filter>, steps: seq<Step>): Parsed<seq<Filter>>
    decreases |steps|
  {
    if steps == [] then Ok(stack)
    else
      var next :- Execute(stack, steps[0]);
      Run(next, steps[1..])
  }
}
