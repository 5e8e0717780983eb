/**
  What each name in a query object means on a document, said outright: for the filter the
  compiled steps build and for the one the Node binding builds.
*/
module FilterMeaning {
  import opened Prelude
  import opened Bytes
  import opened Value
  import opened Filter
  import opened FilterOrder
  import opened FilterInput
  import opened FilterNode
  import opened FilterMachine
  import opened FilterCompile
  import Varint

  /** The names, byte by byte. */
  lemma Spelled()
    ensures Ascii("$and") == [36, 97, 110, 100] && Ascii("$or") == [36, 111, 114] && Ascii("$not") == [36, 110, 111, 116]
    ensures Ascii("$eq") == [36, 101, 113] && Ascii("$ne") == [36, 110, 101]
    ensures Ascii("$gt") == [36, 103, 116] && Ascii("$gte") == [36, 103, 116, 101]
    ensures Ascii("$lt") == [36, 108, 116] && Ascii("$lte") == [36, 108, 116, 101]
    ensures Ascii("$in") == [36, 105, 110] && Ascii("$nin") == [36, 110, 105, 110]
    ensures Ascii("$exists") == [36, 101, 120, 105, 115, 116, 115]
    ensures Ascii("$contains") == [36, 99, 111, 110, 116, 97, 105, 110, 115]
    ensures Ascii("$startsWith") == [36, 115, 116, 97, 114, 116, 115, 87, 105, 116, 104]
  {
  }

  /** Which operator each name is. */
  lemma OperatorNames()
    ensures ScriptOperator([36, 101, 113]) == OpEq && ScriptOperator([36, 110, 101]) == OpNe
    ensures ScriptOperator([36, 103, 116]) == OpGt && ScriptOperator([36, 103, 116, 101]) == OpGte
    ensures ScriptOperator([36, 108, 116]) == OpLt && ScriptOperator([36, 108, 116, 101]) == OpLte
    ensures ScriptOperator([36, 105, 110]) == OpIn && ScriptOperator([36, 110, 105, 110]) == OpNin
    ensures ScriptOperator([36, 101, 120, 105, 115, 116, 115]) == OpExists
    ensures ScriptOperator([36, 99, 111, 110, 116, 97, 105, 110, 115]) == OpContains
    ensures ScriptOperator([36, 115, 116, 97, 114, 116, 115, 87, 105, 116, 104]) == OpStartsWith
  {
    Spelled();
    hide Ascii;
  }

  lemma KeyNames(k: seq<Byte>)
    ensures ScriptKey([36, 97, 110, 100]) == AndKey && ScriptKey([36, 111, 114]) == OrKey && ScriptKey([36, 110, 111, 116]) == NotKey
    ensures k == [] || k[0] != 36 ==> ScriptKey(k) == FieldKey
  {
    Spelled();
    hide Ascii;
  }

  /** Both the compiled filter and Node's accept the query and answer `yes` on `d`. */
  ghost predicate Answers(v: Js, d: Document, yes: bool) {
    && Compile(v).Ok? && (exists g :: Run([], Compile(v).value) == Ok([g]) && Matches(g, d) == yes)
    && forall coerce: Coercion :: Parse(v, coerce).Ok? && Matches(Parse(v, coerce).value, d) == yes
  }

  /** `{ field: { key: raw } }`. */
  function Query(field: Path, key: seq<Byte>, raw: Js): Js {
    JsObject([Prop(field, JsObject([Prop(key, raw)]))])
  }

  lemma CompiledAnswers(v: Js, d: Document, yes: bool)
    requires Compile(v).Ok? && Compile(v).value != []
    requires forall coerce: Coercion :: Parse(v, coerce).Ok? ==> Matches(Parse(v, coerce).value, d) == yes
    ensures Answers(v, d, yes)
  {
    hide Compile, Parse, Run, Matches;
    forall coerce: Coercion ensures Parse(v, coerce).Ok? {
      var g := CompilerCorrect(v, coerce);
    }
    var any: Coercion := (x: Js) => None;
    var g := CompilerCorrect(v, any);
    assert Matches(g, d) == Matches(Parse(v, any).value, d);
  }

  lemma OneClause(p: Prop, depth: nat, coerce: Coercion)
    requires depth <= MAX_NESTING
    ensures ParseClauses([p], depth, coerce).Ok? ==>
      (ParseClause(p, depth, coerce).Ok? && ParseClauses([p], depth, coerce).value == [ParseClause(p, depth, coerce).value])
    ensures WalkClause(p, depth).Ok? ==> WalkClauses([p], depth) == Ok(WalkClause(p, depth).value)
  {
    hide ParseClause, WalkClause;
    var noFilters: seq<Filter>, noSteps: seq<Step> := [], [];
    assert [p][1..] == [];
    assert ParseClauses([p][1..], depth, coerce) == Ok(noFilters) && WalkClauses([p][1..], depth) == Ok(noSteps);
    if WalkClause(p, depth).Ok? {
      assert WalkClause(p, depth).value + noSteps == WalkClause(p, depth).value;
    }
  }

  lemma OneOperator(field: Path, op: Prop)
    ensures ParseOperators(field, [op]).Ok? ==>
      (ParseOperator(field, NodeOperator(op.key), op.value).Ok?
       && ParseOperators(field, [op]).value == [ParseOperator(field, NodeOperator(op.key), op.value).value])
    ensures WalkOperator(field, ScriptOperator(op.key), op.value).Ok? ==>
      WalkOperators(field, [op]) == Ok(WalkOperator(field, ScriptOperator(op.key), op.value).value)
  {
    hide ParseOperator, WalkOperator, NodeOperator, ScriptOperator;
    var noFilters: seq<Filter>, noSteps: seq<Step> := [], [];
    assert [op][1..] == [];
    assert ParseOperators(field, [op][1..]) == Ok(noFilters) && WalkOperators(field, [op][1..]) == Ok(noSteps);
    if WalkOperator(field, ScriptOperator(op.key), op.value).Ok? {
      assert WalkOperator(field, ScriptOperator(op.key), op.value).value + noSteps == WalkOperator(field, ScriptOperator(op.key), op.value).value;
    }
  }

  /** One field under one operator answers as Node's clause for it does. */
  lemma OperatorAnswers(field: Path, key: seq<Byte>, raw: Js, d: Document, yes: bool)
    requires (field == [] || field[0] != 36) && WalkOperator(field, ScriptOperator(key), raw).Ok?
    requires ParseOperator(field, ScriptOperator(key), raw).Ok? ==>
      Matches(ParseOperator(field, ScriptOperator(key), raw).value, d) == yes
    ensures Answers(Query(field, key, raw), d, yes)
  {
    hide WalkOperator, ParseOperator, ScriptOperator, NodeOperator, ScriptKey, NodeKey, Matches, Run;
    var op := Prop(key, raw);
    var p := Prop(field, JsObject([op]));
    var v := Query(field, key, raw);
    KeyNames(field);
    NamesAgree(field);
    NamesAgree(key);
    OneOperator(field, op);
    var g := OperatorCompiles(field, ScriptOperator(key), raw);
    var none: Coercion := (x: Js) => None;
    OneClause(p, 1, none);
    var steps := WalkOperator(field, ScriptOperator(key), raw).value;
    assert steps + [] == steps;
    assert WalkField(field, p.value) == Ok(steps);
    assert WalkClause(p, 1) == Ok(steps);
    assert Compile(v) == Ok(steps);
    RunsAlone(steps, g);
    forall coerce: Coercion ensures Parse(v, coerce).Ok? ==> Matches(Parse(v, coerce).value, d) == yes {
      OneClause(p, 1, coerce);
    }
    CompiledAnswers(v, d, yes);
  }

  /** A comparison of two integers. */
  predicate Compares(op: Operator, x: int, n: int) {
    match op
    case OpEq => x == n
    case OpNe => x != n
    case OpGt => x > n
    case OpGte => x >= n
    case OpLt => x < n
    case OpLte => x <= n
    case _ => false
  }

  lemma ComparisonMeans(field: Path, key: seq<Byte>, op: Operator, n: Varint.I64, x: Varint.I64, d: Document)
    requires (field == [] || field[0] != 36) && d.resolve(field) == Some(I64(x))
    requires ScriptOperator(key) == op && op in {OpEq, OpNe, OpGt, OpGte, OpLt, OpLte}
    ensures Answers(Query(field, key, JsNumber(Whole(n))), d, Compares(op, x, n))
  {
    hide ScriptOperator, Answers;
    OperatorAnswers(field, key, JsNumber(Whole(n)), d, Compares(op, x, n));
  }

  /**
    On a document whose field is the integer `x`, `$eq`, `$ne`, `$gt`, `$gte`, `$lt` and
    `$lte` against the integer `n` answer what their names say.
  */
  lemma ComparisonsMean(field: Path, n: Varint.I64, x: Varint.I64, d: Document)
    requires (field == [] || field[0] != 36) && d.resolve(field) == Some(I64(x))
    ensures Answers(Query(field, [36, 101, 113], JsNumber(Whole(n))), d, x == n)
    ensures Answers(Query(field, [36, 110, 101], JsNumber(Whole(n))), d, x != n)
    ensures Answers(Query(field, [36, 103, 116], JsNumber(Whole(n))), d, x > n)
    ensures Answers(Query(field, [36, 103, 116, 101], JsNumber(Whole(n))), d, x >= n)
    ensures Answers(Query(field, [36, 108, 116], JsNumber(Whole(n))), d, x < n)
    ensures Answers(Query(field, [36, 108, 116, 101], JsNumber(Whole(n))), d, x <= n)
  {
    OperatorNames();
    hide ScriptOperator, Answers, Query;
    ComparisonMeans(field, [36, 101, 113], OpEq, n, x, d);
    ComparisonMeans(field, [36, 110, 101], OpNe, n, x, d);
    ComparisonMeans(field, [36, 103, 116], OpGt, n, x, d);
    ComparisonMeans(field, [36, 103, 116, 101], OpGte, n, x, d);
    ComparisonMeans(field, [36, 108, 116], OpLt, n, x, d);
    ComparisonMeans(field, [36, 108, 116, 101], OpLte, n, x, d);
  }

  /** A comparison of two texts. */
  ghost predicate TextCompares(op: Operator, x: seq<Byte>, s: seq<Byte>) {
    match op
    case OpEq => x == s
    case OpNe => x != s
    case OpGt => FirstSmaller(s, x)
    case OpGte => x == s || FirstSmaller(s, x)
    case OpLt => FirstSmaller(x, s)
    case OpLte => x == s || FirstSmaller(x, s)
    case _ => false
  }

  lemma TextOrdered(x: seq<Byte>, s: seq<Byte>, d: Document)
    ensures Compare(Str(x), Str(s), d) ==
      Some(if x == s then Equal else if FirstSmaller(x, s) then Below else Above)
    ensures FirstSmaller(s, x) <==> x != s && !FirstSmaller(x, s)
  {
    LessExactly(x, s);
    LessExactly(s, x);
    LessTotal(x, s);
    hide FirstSmaller;
  }

  lemma TextMatches(field: Path, x: seq<Byte>, s: seq<Byte>, d: Document)
    requires d.resolve(field) == Some(Str(x))
    ensures Matches(Eq(field, Str(s)), d) == (x == s) && Matches(Ne(field, Str(s)), d) == (x != s)
    ensures Matches(Gt(field, Str(s)), d) == TextCompares(OpGt, x, s)
    ensures Matches(Gte(field, Str(s)), d) == TextCompares(OpGte, x, s)
    ensures Matches(Lt(field, Str(s)), d) == TextCompares(OpLt, x, s)
    ensures Matches(Lte(field, Str(s)), d) == TextCompares(OpLte, x, s)
  {
    TextOrdered(x, s, d);
    hide Compare, FirstSmaller;
  }

  lemma TextComparisonMeans(field: Path, key: seq<Byte>, op: Operator, s: seq<Byte>, x: seq<Byte>, d: Document)
    requires (field == [] || field[0] != 36) && d.resolve(field) == Some(Str(x))
    requires ScriptOperator(key) == op && op in {OpEq, OpNe, OpGt, OpGte, OpLt, OpLte}
    ensures Answers(Query(field, key, JsString(s)), d, TextCompares(op, x, s))
  {
    TextMatches(field, x, s, d);
    hide ScriptOperator, Answers, Matches, Same, Compare, Less, FirstSmaller;
    OperatorAnswers(field, key, JsString(s), d, TextCompares(op, x, s));
  }

  /** On text the same six names compare byte by byte, the first difference deciding. */
  lemma TextComparisonsMean(field: Path, s: seq<Byte>, x: seq<Byte>, d: Document)
    requires (field == [] || field[0] != 36) && d.resolve(field) == Some(Str(x))
    ensures Answers(Query(field, [36, 101, 113], JsString(s)), d, x == s)
    ensures Answers(Query(field, [36, 110, 101], JsString(s)), d, x != s)
    ensures Answers(Query(field, [36, 103, 116], JsString(s)), d, FirstSmaller(s, x))
    ensures Answers(Query(field, [36, 103, 116, 101], JsString(s)), d, x == s || FirstSmaller(s, x))
    ensures Answers(Query(field, [36, 108, 116], JsString(s)), d, FirstSmaller(x, s))
    ensures Answers(Query(field, [36, 108, 116, 101], JsString(s)), d, x == s || FirstSmaller(x, s))
  {
    OperatorNames();
    hide ScriptOperator, Answers, Query, FirstSmaller;
    TextComparisonMeans(field, [36, 101, 113], OpEq, s, x, d);
    TextComparisonMeans(field, [36, 110, 101], OpNe, s, x, d);
    TextComparisonMeans(field, [36, 103, 116], OpGt, s, x, d);
    TextComparisonMeans(field, [36, 103, 116, 101], OpGte, s, x, d);
    TextComparisonMeans(field, [36, 108, 116], OpLt, s, x, d);
    TextComparisonMeans(field, [36, 108, 116, 101], OpLte, s, x, d);
  }

  function Numbers(ns: seq<Varint.I64>): (r: seq<Js>)
    ensures |r| == |ns| && forall i :: 0 <= i < |ns| ==> r[i] == JsNumber(Whole(ns[i]))
  {
    seq(|ns|, i requires 0 <= i < |ns| => JsNumber(Whole(ns[i])))
  }

  function Integers(ns: seq<Varint.I64>): (r: seq<Value>)
    ensures |r| == |ns| && forall i :: 0 <= i < |ns| ==> r[i] == I64(ns[i])
  {
    seq(|ns|, i requires 0 <= i < |ns| => I64(ns[i]))
  }

  lemma {:induction false} NumbersPush(field: Path, ns: seq<Varint.I64>)
    ensures PushEqualities(field, Numbers(ns)).Ok? && Scalars(Numbers(ns)) == Ok(Integers(ns))
  {
    if ns != [] {
      NumbersPush(field, ns[1..]);
      assert Numbers(ns)[1..] == Numbers(ns[1..]);
      assert Integers(ns) == [I64(ns[0])] + Integers(ns[1..]);
    } else {
      var none: seq<Value> := [];
      assert Numbers(ns) == [] && Integers(ns) == none;
    }
  }

  lemma MemberMatches(field: Path, ns: seq<Varint.I64>, x: Varint.I64, d: Document)
    requires d.resolve(field) == Some(I64(x))
    ensures Matches(In(field, Integers(ns)), d) <==> x in ns
    ensures Matches(Nin(field, Integers(ns)), d) <==> x !in ns
  {
    assert forall i :: 0 <= i < |ns| ==> Equals(d.resolve(field), Integers(ns)[i], d) == (x == ns[i]);
  }

  /** `$in` and `$nin` say whether the field is one of the numbers. */
  lemma MembershipMeans(field: Path, ns: seq<Varint.I64>, x: Varint.I64, d: Document)
    requires (field == [] || field[0] != 36) && d.resolve(field) == Some(I64(x)) && ns != []
    ensures Answers(Query(field, [36, 105, 110], JsArray(Numbers(ns))), d, x in ns)
    ensures Answers(Query(field, [36, 110, 105, 110], JsArray(Numbers(ns))), d, x !in ns)
  {
    OperatorNames();
    NumbersPush(field, ns);
    MemberMatches(field, ns, x, d);
    hide ScriptOperator, Answers, Query, PushEqualities, Scalars, Matches, Numbers, Integers;
    OperatorAnswers(field, [36, 105, 110], JsArray(Numbers(ns)), d, x in ns);
    OperatorAnswers(field, [36, 110, 105, 110], JsArray(Numbers(ns)), d, x !in ns);
  }

  /** What JavaScript takes for false. */
  predicate Falsy(v: Js) {
    v == JsNull || v == JsBool(false) || v == JsNumber(Whole(0)) || (v.JsNumber? && v.n.NotFinite? && v.n.nan)
    || v == JsString([]) || v == JsOther(false)
  }

  lemma ExistenceMatches(field: Path, raw: Js, d: Document)
    ensures WalkOperator(field, OpExists, raw).Ok? && ParseOperator(field, OpExists, raw).Ok?
    ensures Matches(ParseOperator(field, OpExists, raw).value, d) ==
      if Falsy(raw) then d.resolve(field) in {None, Some(Null)} else d.resolve(field).Some?
  {
    assert Truthy(raw) != Falsy(raw);
    hide Truthy, Falsy;
    var a := d.resolve(field);
    assert a.Some? && a.value.Null? ==> a == Some(Null);
    assert Matches(IsNull(field), d) == (a in {None, Some(Null)});
  }

  /** `$exists` asks for a value, even null, unless its argument is falsy: then for none or null. */
  lemma ExistenceMeans(field: Path, raw: Js, d: Document)
    requires field == [] || field[0] != 36
    ensures Answers(Query(field, [36, 101, 120, 105, 115, 116, 115], raw), d,
              if Falsy(raw) then d.resolve(field) in {None, Some(Null)} else d.resolve(field).Some?)
  {
    OperatorNames();
    ExistenceMatches(field, raw, d);
    hide ScriptOperator, Answers, Query, Falsy, WalkOperator, ParseOperator, Matches;
    var yes := if Falsy(raw) then d.resolve(field) in {None, Some(Null)} else d.resolve(field).Some?;
    OperatorAnswers(field, [36, 101, 120, 105, 115, 116, 115], raw, d, yes);
  }

  /** `$startsWith` asks for text with that beginning. */
  lemma PrefixMeans(field: Path, prefix: seq<Byte>, text: seq<Byte>, d: Document)
    requires (field == [] || field[0] != 36) && d.resolve(field) == Some(Str(text))
    ensures Answers(Query(field, [36, 115, 116, 97, 114, 116, 115, 87, 105, 116, 104], JsString(prefix)), d, prefix <= text)
  {
    OperatorNames();
    hide ScriptOperator, Answers, Query;
    OperatorAnswers(field, [36, 115, 116, 97, 114, 116, 115, 87, 105, 116, 104], JsString(prefix), d, prefix <= text);
  }

  lemma ElementMatches(field: Path, word: seq<Byte>, words: seq<Value>, d: Document)
    requires d.resolve(field) == Some(Array(words))
    ensures Matches(Contains(field, Str(word)), d) <==> Str(word) in words
  {
    assert forall i :: 0 <= i < |words| ==> Same(words[i], Str(word), d) == (words[i] == Str(word));
  }

  /** `$contains` asks for an array with that element. */
  lemma ContainmentMeans(field: Path, word: seq<Byte>, words: seq<Value>, d: Document)
    requires (field == [] || field[0] != 36) && d.resolve(field) == Some(Array(words))
    ensures Answers(Query(field, [36, 99, 111, 110, 116, 97, 105, 110, 115], JsString(word)), d, Str(word) in words)
  {
    OperatorNames();
    ElementMatches(field, word, words, d);
    hide ScriptOperator, Answers, Query, Matches;
    OperatorAnswers(field, [36, 99, 111, 110, 116, 97, 105, 110, 115], JsString(word), d, Str(word) in words);
  }

  // ----- Combinators -----

  /** `{ key: value }`. */
  function Alone(key: seq<Byte>, value: Js): Js {
    JsObject([Prop(key, value)])
  }

  /** Node's filter for the nested object `v`. */
  ghost predicate Part(v: Js, d: Document, coerce: Coercion, yes: bool) {
    ParseObject(v, 2, coerce).Ok? && Matches(ParseObject(v, 2, coerce).value, d) == yes
  }

  lemma {:induction false} ListParts(items: seq<Js>, depth: nat, coerce: Coercion)
    requires ParseList(items, depth, coerce).Ok?
    ensures |ParseList(items, depth, coerce).value| == |items|
    ensures forall i :: 0 <= i < |items| ==>
      ParseObject(items[i], depth, coerce) == Ok(ParseList(items, depth, coerce).value[i])
    decreases |items|
  {
    hide ParseObject;
    if items != [] {
      ListParts(items[1..], depth, coerce);
    }
  }

  lemma ClauseAnswers(p: Prop, d: Document, yes: bool)
    requires WalkClause(p, 1).Ok?
    requires forall coerce: Coercion :: ParseClause(p, 1, coerce).Ok? ==> Matches(ParseClause(p, 1, coerce).value, d) == yes
    ensures Answers(JsObject([p]), d, yes)
  {
    hide WalkClause, ParseClause, Matches, Run;
    var none: Coercion := (x: Js) => None;
    var v := JsObject([p]);
    OneClause(p, 1, none);
    var g := ClauseCompiles(p, 1, none);
    var steps := WalkClause(p, 1).value;
    assert steps + [] == steps;
    assert Compile(v) == Ok(steps);
    RunsAlone(steps, g);
    forall coerce: Coercion ensures Parse(v, coerce).Ok? ==> Matches(Parse(v, coerce).value, d) == yes {
      OneClause(p, 1, coerce);
    }
    CompiledAnswers(v, d, yes);
  }

  /** A bare value asks for equality. */
  lemma BareValueMeans(field: Path, n: Varint.I64, x: Varint.I64, d: Document)
    requires (field == [] || field[0] != 36) && d.resolve(field) == Some(I64(x))
    ensures Answers(Alone(field, JsNumber(Whole(n))), d, x == n)
  {
    KeyNames(field);
    NamesAgree(field);
    var p := Prop(field, JsNumber(Whole(n)));
    hide ScriptKey, NodeKey, Answers;
    ClauseAnswers(p, d, x == n);
  }

  /** `$and` asks for every part, `$or` for some part. */
  lemma ListsMean(items: seq<Js>, answers: seq<bool>, d: Document)
    requires WalkItems(items, 2).Ok? && items != [] && |answers| == |items|
    requires forall i, coerce: Coercion :: 0 <= i < |items| ==> Part(items[i], d, coerce, answers[i])
    ensures Answers(Alone([36, 97, 110, 100], JsArray(items)), d, false !in answers)
    ensures Answers(Alone([36, 111, 114], JsArray(items)), d, true in answers)
  {
    KeyNames([]);
    NamesAgree([36, 97, 110, 100]);
    NamesAgree([36, 111, 114]);
    var a, o := Prop([36, 97, 110, 100], JsArray(items)), Prop([36, 111, 114], JsArray(items));
    hide ScriptKey, NodeKey, WalkItems, ParseList, ParseObject, Answers;
    forall coerce: Coercion
      ensures ParseClause(a, 1, coerce).Ok? ==> Matches(ParseClause(a, 1, coerce).value, d) == (false !in answers)
      ensures ParseClause(o, 1, coerce).Ok? ==> Matches(ParseClause(o, 1, coerce).value, d) == (true in answers)
    {
      if ParseList(items, 2, coerce).Ok? {
        ListParts(items, 2, coerce);
        PartsDecide(items, ParseList(items, 2, coerce).value, answers, d, coerce);
      }
    }
    ClauseAnswers(a, d, false !in answers);
    ClauseAnswers(o, d, true in answers);
  }

  lemma PartsDecide(items: seq<Js>, fs: seq<Filter>, answers: seq<bool>, d: Document, coerce: Coercion)
    requires |fs| == |items| == |answers|
    requires forall i :: 0 <= i < |items| ==> ParseObject(items[i], 2, coerce) == Ok(fs[i])
    requires forall i :: 0 <= i < |items| ==> Part(items[i], d, coerce, answers[i])
    ensures Matches(And(fs), d) == (false !in answers) && Matches(Or(fs), d) == (true in answers)
  {
    hide ParseObject;
    forall i | 0 <= i < |fs| ensures Matches(fs[i], d) == answers[i] {
      assert Part(items[i], d, coerce, answers[i]);
    }
  }

  /** `$not` asks for the part to fail. */
  lemma NegationMeans(v: Js, d: Document, yes: bool)
    requires WalkNested(v, 2).Ok? && forall coerce: Coercion :: Part(v, d, coerce, yes)
    ensures Answers(Alone([36, 110, 111, 116], v), d, !yes)
  {
    KeyNames([]);
    NamesAgree([36, 110, 111, 116]);
    var p := Prop([36, 110, 111, 116], v);
    hide ScriptKey, NodeKey, WalkNested, ParseObject, Answers;
    forall coerce: Coercion
      ensures ParseClause(p, 1, coerce).Ok? ==> Matches(ParseClause(p, 1, coerce).value, d) == !yes
    {
      assert Part(v, d, coerce, yes);
    }
    ClauseAnswers(p, d, !yes);
  }

  /** Several keys in one object ask for all of them. */
  lemma KeysMean(props: seq<Prop>, depth: nat, coerce: Coercion, d: Document)
    requires ParseObject(JsObject(props), depth, coerce).Ok?
    ensures depth <= MAX_NESTING && ParseClauses(props, depth, coerce).Ok?
    ensures Matches(ParseObject(JsObject(props), depth, coerce).value, d) <==>
      forall i :: 0 <= i < |ParseClauses(props, depth, coerce).value| ==> Matches(ParseClauses(props, depth, coerce).value[i], d)
  {
    hide ParseClauses;
  }
}
